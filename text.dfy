/**
 * The handful of Go `strings`/`strconv` operations the job manager relies on, as functions over
 * `string` (a sequence of Unicode scalar values).  Each comes with the property the manager needs.
 */
module Text {

  /** Go's `unicode.IsSpace`: the Unicode White_Space characters. */
  predicate IsSpace(c: char)
  {
    c == ' ' || ('\t' <= c <= '\r') || c == '\U{85}' || c == '\U{A0}' || c == '\U{1680}'
    || ('\U{2000}' <= c <= '\U{200A}') || c == '\U{2028}' || c == '\U{2029}'
    || c == '\U{202F}' || c == '\U{205F}' || c == '\U{3000}'
  }

  function TrimLeft(s: string): (r: string)
    ensures |r| <= |s| && r == s[|s| - |r|..]
    ensures forall k :: 0 <= k < |s| - |r| ==> IsSpace(s[k])
    ensures r == [] || !IsSpace(r[0])
  {
    if s != [] && IsSpace(s[0]) then TrimLeft(s[1..]) else s
  }

  function TrimRight(s: string): (r: string)
    ensures |r| <= |s| && r == s[..|r|]
    ensures forall k :: |r| <= k < |s| ==> IsSpace(s[k])
    ensures r == [] || !IsSpace(r[|r| - 1])
  {
    if s != [] && IsSpace(s[|s| - 1]) then TrimRight(s[..|s| - 1]) else s
  }

  /**
   * Go's `strings.TrimSpace`: the slice of `s` that is left after removing white space at both
   * ends; it starts and ends with a character that is not white space.
   */
  function TrimSpace(s: string): (r: string)
    ensures |r| <= |s|
    ensures r == [] || (!IsSpace(r[0]) && !IsSpace(r[|r| - 1]))
  {
    TrimRight(TrimLeft(s))
  }

  /** `TrimSpace` leaves a string that has no white space at either end as it is. */
  lemma TrimSpaceKeepsTrimmed(s: string)
    requires s == [] || (!IsSpace(s[0]) && !IsSpace(s[|s| - 1]))
    ensures TrimSpace(s) == s
  {
  }

  /** ASCII lower-casing of one character (letters A..Z only). */
  function LowerChar(c: char): (d: char)
  {
    if 'A' <= c <= 'Z' then (c as int - 'A' as int + 'a' as int) as char else c
  }

  /** Lower-casing of a whole string, character by character. */
  function Lower(s: string): (r: string)
    ensures |r| == |s|
  {
    seq(|s|, k requires 0 <= k < |s| => LowerChar(s[k]))
  }

  lemma LowerAppend(a: string, b: string)
    ensures Lower(a + b) == Lower(a) + Lower(b)
  {
    assert Lower(a + b) == Lower(a) + Lower(b) by {
      forall k | 0 <= k < |a + b| ensures Lower(a + b)[k] == (Lower(a) + Lower(b))[k] {
        if k < |a| { assert (a + b)[k] == a[k]; } else { assert (a + b)[k] == b[k - |a|]; }
      }
    }
  }

  /** Go's `strings.HasSuffix`. */
  predicate HasSuffix(s: string, suffix: string)
  {
    |suffix| <= |s| && s[|s| - |suffix|..] == suffix
  }

  /** `s` has `c` followed by `c` somewhere. */
  predicate HasDoubled(s: string, c: char)
  {
    exists k {:trigger s[k]} :: 0 <= k < |s| - 1 && s[k] == c && s[k + 1] == c
  }

  /**
   * Go's `strings.ReplaceAll(s, pat, rep)` for a non-empty `pat`: scans left to right and
   * replaces each non-overlapping occurrence of `pat` by `rep`.
   */
  function ReplaceAll(s: string, pat: string, rep: string): (r: string)
    requires |pat| > 0
    ensures |rep| <= |pat| ==> |r| <= |s|
    ensures |rep| == |pat| ==> |r| == |s|
    decreases |s|
  {
    if |s| < |pat| then s
    else if s[..|pat|] == pat then rep + ReplaceAll(s[|pat|..], pat, rep)
    else [s[0]] + ReplaceAll(s[1..], pat, rep)
  }

  /** Replacing a single character by a single character is a pointwise substitution. */
  lemma {:induction false} ReplaceCharPointwise(s: string, c: char, d: char)
    ensures |ReplaceAll(s, [c], [d])| == |s|
    ensures forall k :: 0 <= k < |s| ==> ReplaceAll(s, [c], [d])[k] == if s[k] == c then d else s[k]
  {
    if |s| > 0 {
      ReplaceCharPointwise(s[1..], c, d);
      assert s[..1] == [s[0]];
      var r := ReplaceAll(s, [c], [d]);
      assert r == [if s[0] == c then d else s[0]] + ReplaceAll(s[1..], [c], [d]);
    }
  }

  /** Replacing a character that does not occur changes nothing. */
  lemma ReplaceCharAbsent(s: string, c: char, d: char)
    requires c !in s
    ensures ReplaceAll(s, [c], [d]) == s
  {
    ReplaceCharPointwise(s, c, d);
  }

  /** A character that is in neither `s` nor `rep` is not in the result. */
  lemma {:induction false} ReplaceAllAbsent(s: string, pat: string, rep: string, x: char)
    requires |pat| > 0
    requires x !in s && x !in rep
    ensures x !in ReplaceAll(s, pat, rep)
    decreases |s|
  {
    if |s| < |pat| {
    } else if s[..|pat|] == pat {
      ReplaceAllAbsent(s[|pat|..], pat, rep, x);
    } else {
      ReplaceAllAbsent(s[1..], pat, rep, x);
    }
  }

  /** Replacing `..` by a string without dots leaves no two adjacent dots. */
  lemma {:induction false} ReplaceDoubleDotGone(s: string, rep: string)
    requires '.' !in rep
    ensures !HasDoubled(ReplaceAll(s, "..", rep), '.')
    decreases |s|
  {
    var r := ReplaceAll(s, "..", rep);
    if |s| < 2 {
    } else if s[..2] == ".." {
      ReplaceDoubleDotGone(s[2..], rep);
      var t := ReplaceAll(s[2..], "..", rep);
      assert r == rep + t;
      forall k | 0 <= k < |r| - 1 ensures !(r[k] == '.' && r[k + 1] == '.') {
        if k + 1 < |rep| {
          assert r[k] == rep[k];
        } else if k + 1 == |rep| {
          assert r[k] == rep[k];
        } else {
          assert r[k] == t[k - |rep|] && r[k + 1] == t[k - |rep| + 1];
        }
      }
    } else {
      ReplaceDoubleDotGone(s[1..], rep);
      var t := ReplaceAll(s[1..], "..", rep);
      assert r == [s[0]] + t;
      if s[0] == '.' {
        assert s[1] != '.' by { assert s[..2] == [s[0], s[1]]; }
        ReplaceAllHead(s[1..], "..", rep);
      }
      forall k | 0 <= k < |r| - 1 ensures !(r[k] == '.' && r[k + 1] == '.') {
        if k > 0 { assert r[k] == t[k - 1] && r[k + 1] == t[k]; }
      }
    }
  }

  /** When `s` does not start with the first character of `pat`, `ReplaceAll` keeps that character. */
  lemma ReplaceAllHead(s: string, pat: string, rep: string)
    requires |pat| > 0 && |s| > 0 && s[0] != pat[0]
    ensures |ReplaceAll(s, pat, rep)| > 0 && ReplaceAll(s, pat, rep)[0] == s[0]
  {
    if |s| >= |pat| { assert s[..|pat|][0] != pat[0]; }
  }

  /** `ReplaceAll` of `..` leaves a string with no two adjacent dots unchanged. */
  lemma {:induction false} ReplaceDoubleDotIdentity(s: string, rep: string)
    requires !HasDoubled(s, '.')
    ensures ReplaceAll(s, "..", rep) == s
    decreases |s|
  {
    if |s| >= 2 {
      assert s[..2] != ".." by { assert !(s[0] == '.' && s[1] == '.'); }
      assert !HasDoubled(s[1..], '.') by {
        forall k | 0 <= k < |s[1..]| - 1 ensures !(s[1..][k] == '.' && s[1..][k + 1] == '.') {
          assert s[1..][k] == s[k + 1] && s[1..][k + 1] == s[k + 2];
        }
      }
      ReplaceDoubleDotIdentity(s[1..], rep);
      assert s == [s[0]] + s[1..];
    }
  }

  /** Go's `strings.IndexByte` for an ASCII byte: the first position of `c`, or -1. */
  function IndexOf(s: string, c: char): (i: int)
    ensures -1 <= i < |s|
    ensures i == -1 <==> c !in s
    ensures i >= 0 ==> s[i] == c && c !in s[..i]
  {
    if s == [] then -1
    else if s[0] == c then 0
    else
      var j := IndexOf(s[1..], c);
      if j == -1 then -1
      else
        assert s[..j + 1] == [s[0]] + s[1..][..j];
        j + 1
  }

  /** Go's `strings.Join`: the result starts with the first part and ends with the last. */
  function Join(parts: seq<string>, sep: string): (r: string)
    ensures parts == [] ==> r == ""
    ensures parts != [] ==> parts[0] <= r && HasSuffix(r, parts[|parts| - 1])
  {
    if |parts| == 0 then ""
    else if |parts| == 1 then parts[0]
    else
      var rest := Join(parts[1..], sep);
      var r := parts[0] + sep + rest;
      assert r[|r| - |rest|..] == rest;
      assert r[|r| - |parts[|parts| - 1]|..] == rest[|rest| - |parts[|parts| - 1]|..];
      r
  }

  /** Joining non-empty parts gives the empty string exactly when there are no parts. */
  lemma {:induction false} JoinEmpty(parts: seq<string>, sep: string)
    requires forall k :: 0 <= k < |parts| ==> parts[k] != ""
    ensures Join(parts, sep) == "" <==> parts == []
  {
    if |parts| >= 2 {
      assert |Join(parts, sep)| >= |parts[0]| > 0;
    }
  }

  function DigitChar(d: nat): (c: char)
    requires d < 10
    ensures '0' <= c <= '9' && c as int - '0' as int == d
  {
    ('0' as int + d) as char
  }

  /** The decimal digits of `n`, most significant first, without leading zeros. */
  function NatDigits(n: nat): (r: string)
    decreases n
  {
    if n < 10 then [DigitChar(n)] else NatDigits(n / 10) + [DigitChar(n % 10)]
  }

  /**
   * Go's `%d` verb (and `strconv.Itoa`) for an `int`: decimal digits that read back as the
   * number, after a `-` when it is negative.
   */
  function Decimal(n: int): (r: string)
    ensures n >= 0 ==> r != [] && IsDigits(r) && DigitsValue(r) == n
    ensures n < 0 ==> |r| >= 2 && r[0] == '-' && IsDigits(r[1..]) && DigitsValue(r[1..]) == -n
  {
    var m := if n < 0 then -n else n;
    NatDigitsRoundTrip(m);
    if n < 0 then
      assert ("-" + NatDigits(m))[1..] == NatDigits(m);
      "-" + NatDigits(m)
    else NatDigits(m)
  }

  predicate IsDigits(s: string)
  {
    forall k :: 0 <= k < |s| ==> '0' <= s[k] <= '9'
  }

  /** The number a string of decimal digits denotes (the reading side of `NatDigits`). */
  function DigitsValue(s: string): (v: nat)
    requires IsDigits(s)
  {
    if s == [] then 0 else DigitsValue(s[..|s| - 1]) * 10 + (s[|s| - 1] as int - '0' as int)
  }

  /** `NatDigits` is a non-empty digit string with no leading zero that reads back as `n`. */
  lemma {:induction false} NatDigitsRoundTrip(n: nat)
    ensures var r := NatDigits(n); r != [] && IsDigits(r) && DigitsValue(r) == n
    ensures NatDigits(n)[0] == '0' ==> n == 0
    decreases n
  {
    if n >= 10 {
      NatDigitsRoundTrip(n / 10);
      var r := NatDigits(n);
      var q := NatDigits(n / 10);
      assert r == q + [DigitChar(n % 10)];
      assert r[..|r| - 1] == q;
    }
  }
}
