/**
 * How the job manager names things: which item URLs it accepts, how it turns a URL into a
 * local file name inside a job's staging directory, and how it renders a job identifier.
 */
module Naming {
  import opened Text

  const PdfSuffix := ".pdf"
  const JpegSuffix := ".jpeg"

  /**
   * `isAllowed`: the lower-cased URL ends in `.pdf` or `.jpeg`.  The whole URL is checked,
   * query string included.
   */
  predicate IsAllowed(u: string)
    ensures IsAllowed(u) ==> |u| >= |PdfSuffix| && (LowerChar(u[|u| - 1]) == 'f' || LowerChar(u[|u| - 1]) == 'g')
  {
    var l := Lower(u);
    assert HasSuffix(l, PdfSuffix) ==> l[|l| - 1] == l[|l| - 4..][3];
    assert HasSuffix(l, JpegSuffix) ==> l[|l| - 1] == l[|l| - 5..][4];
    HasSuffix(l, PdfSuffix) || HasSuffix(l, JpegSuffix)
  }

  /**
   * `IsAllowed` is exactly "the URL ends in a piece that, ignoring case, reads `.pdf` or `.jpeg`".
   */
  lemma IsAllowedByTail(u: string)
    ensures IsAllowed(u) <==>
      exists n {:trigger u[n..]} :: 0 <= n <= |u| && (Lower(u[n..]) == PdfSuffix || Lower(u[n..]) == JpegSuffix)
  {
    forall n | 0 <= n <= |u| ensures Lower(u[n..]) == Lower(u)[n..] {
      assert u == u[..n] + u[n..];
      LowerAppend(u[..n], u[n..]);
    }
    if HasSuffix(Lower(u), PdfSuffix) {
      assert Lower(u[|u| - 4..]) == PdfSuffix;
    } else if HasSuffix(Lower(u), JpegSuffix) {
      assert Lower(u[|u| - 5..]) == JpegSuffix;
    }
  }

  /** Any URL whose last piece reads `.pdf` or `.jpeg` in some mix of cases is accepted. */
  lemma EndsWithAllowed(prefix: string, ext: string)
    requires Lower(ext) == PdfSuffix || Lower(ext) == JpegSuffix
    ensures IsAllowed(prefix + ext)
  {
    LowerAppend(prefix, ext);
    var l := Lower(prefix + ext);
    assert l[|l| - |ext|..] == Lower(ext);
  }

  /**
   * The suffix rule on any URL prefix: `.pdf`, `.jpeg` and `.PDF` endings are accepted; `.gif`,
   * `.jpg` and a `.pdf` followed by an empty query string are refused.
   */
  lemma IsAllowedExamples(prefix: string)
    ensures IsAllowed(prefix + ".pdf") && IsAllowed(prefix + ".jpeg") && IsAllowed(prefix + ".PDF")
    ensures !IsAllowed(prefix + ".gif") && !IsAllowed(prefix + ".jpg") && !IsAllowed(prefix + ".pdf?")
  {
    LowerOfSuffixes();
    EndsWithAllowed(prefix, PdfSuffix);
    EndsWithAllowed(prefix, JpegSuffix);
    var upper := Lower(".PDF");
    assert upper[0] == '.' && upper[1] == 'p' && upper[2] == 'd' && upper[3] == 'f';
    EndsWithAllowed(prefix, ".PDF");
    EndsWithRefused(prefix, ".gif");
    EndsWithRefused(prefix, ".jpg");
    EndsWithRefused(prefix, ".pdf?");
  }

  /**
   * A URL is refused, whatever precedes its last two characters, when those do not read `df`
   * (the end of `.pdf`) nor `eg` (the end of `.jpeg`), ignoring case.
   */
  lemma EndsWithRefused(prefix: string, ext: string)
    requires |ext| >= 2
    requires var a, b := LowerChar(ext[|ext| - 2]), LowerChar(ext[|ext| - 1]);
      !(a == 'd' && b == 'f') && !(a == 'e' && b == 'g')
    ensures !IsAllowed(prefix + ext)
  {
    LowerAppend(prefix, ext);
    var l := Lower(prefix + ext);
    assert l[|l| - 1] == LowerChar(ext[|ext| - 1]) && l[|l| - 2] == LowerChar(ext[|ext| - 2]);
    assert !HasSuffix(l, PdfSuffix) by {
      if |l| >= 4 {
        assert l[|l| - 4..][2] == l[|l| - 2] && l[|l| - 4..][3] == l[|l| - 1];
      }
    }
    assert !HasSuffix(l, JpegSuffix) by {
      if |l| >= 5 {
        assert l[|l| - 5..][3] == l[|l| - 2] && l[|l| - 5..][4] == l[|l| - 1];
      }
    }
  }

  /** Strips the trailing `/` characters of a path: what is dropped is slashes only. */
  function StripTrailingSlashes(p: string): (r: string)
    ensures |r| <= |p| && r == p[..|r|] && (r == [] || r[|r| - 1] != '/')
    ensures forall k :: |r| <= k < |p| ==> p[k] == '/'
  {
    if p != [] && p[|p| - 1] == '/' then StripTrailingSlashes(p[..|p| - 1]) else p
  }

  /** What follows the last `/` of a path (all of it when it has none). */
  function AfterLastSlash(p: string): (r: string)
    ensures '/' !in r && HasSuffix(p, r)
    ensures '/' !in p ==> r == p
  {
    if p == [] then []
    else if p[|p| - 1] == '/' then []
    else AfterLastSlash(p[..|p| - 1]) + [p[|p| - 1]]
  }

  /**
   * Go's `filepath.Base` with the Unix separator: `.` for the empty path, `/` for a path of
   * slashes only, otherwise the last element after trailing slashes are dropped.
   */
  function Base(path: string): (r: string)
    ensures r != []
    ensures r == "/" || '/' !in r
    ensures path != [] && '/' !in path ==> r == path
  {
    if path == [] then "."
    else
      var p := StripTrailingSlashes(path);
      if p == [] then "/" else AfterLastSlash(p)
  }

  /**
   * `safeName`: trim white space, turn `/`, `\` and `..` into `_`, give up (empty) on an empty,
   * `.` or `..` result, and finally cut at the first `?`.  Whatever it is given, the name it
   * returns is plain: no separator, no `?`, no `..`.
   */
  function SafeName(s: string): (r: string)
    ensures IsPlain(r)
  {
    var t := TrimSpace(s);
    var a := ReplaceAll(t, "/", "_");
    var b := ReplaceAll(a, "\\", "_");
    var c := ReplaceAll(b, "..", "_");
    SeparatorsGone(t);
    ReplaceAllAbsent(b, "..", "_", '/');
    ReplaceAllAbsent(b, "..", "_", '\\');
    ReplaceDoubleDotGone(b, "_");
    if c == "" || c == "." || c == ".." then ""
    else
      var i := IndexOf(c, '?');
      if i >= 0 then PrefixPlain(c, i); c[..i] else c
  }

  /** A name without path separators, `?` or two adjacent dots. */
  predicate IsPlain(n: string)
  {
    '/' !in n && '\\' !in n && '?' !in n && !HasDoubled(n, '.')
  }

  /** The first two replacements of `safeName` leave no separator of either kind. */
  lemma SeparatorsGone(t: string)
    ensures var b := ReplaceAll(ReplaceAll(t, "/", "_"), "\\", "_"); '/' !in b && '\\' !in b
  {
    var a := ReplaceAll(t, "/", "_");
    ReplaceCharPointwise(t, '/', '_');
    assert '/' !in a;
    ReplaceCharPointwise(a, '\\', '_');
  }

  /** Cutting a string keeps the characters it lacked missing and adds no adjacent dots. */
  lemma PrefixPlain(c: string, i: nat)
    requires i <= |c| && '/' !in c && '\\' !in c && !HasDoubled(c, '.')
    ensures '/' !in c[..i] && '\\' !in c[..i] && !HasDoubled(c[..i], '.')
  {
    assert forall k :: 0 <= k < i ==> c[..i][k] == c[k];
  }

  /**
   * On a trimmed name without separators or `..` (and not empty or `.`), `safeName` only cuts
   * at the first `?`.
   */
  lemma SafeNameOfClean(s: string)
    requires '/' !in s && '\\' !in s && !HasDoubled(s, '.') && s != "" && s != "."
    requires !IsSpace(s[0]) && !IsSpace(s[|s| - 1])
    ensures SafeName(s) == var i := IndexOf(s, '?'); if i >= 0 then s[..i] else s
  {
    TrimSpaceKeepsTrimmed(s);
    ReplaceCharAbsent(s, '/', '_');
    ReplaceCharAbsent(s, '\\', '_');
    ReplaceDoubleDotIdentity(s, "_");
    assert ReplaceAll(ReplaceAll(ReplaceAll(TrimSpace(s), "/", "_"), "\\", "_"), "..", "_") == s;
  }

  /** A name that is already plain, trimmed and not `.` passes through `safeName` unchanged. */
  lemma SafeNameKeepsPlainNames(s: string)
    requires IsPlain(s) && s != "" && s != "."
    requires !IsSpace(s[0]) && !IsSpace(s[|s| - 1])
    ensures SafeName(s) == s
  {
    SafeNameOfClean(s);
  }

  /**
   * `safeName` tests for `.` before it cuts at `?`, so a `.` can still come out; for an accepted
   * URL `LocalName` shows that the extension `download` appends makes the name usable.
   */
  lemma SafeNameCanReturnDot()
    ensures SafeName(".?x") == "."
  {
    var s := ".?x";
    assert !HasDoubled(s, '.') by {
      assert s[1] != '.' && s[2] != '.';
    }
    SafeNameOfClean(s);
    assert IndexOf(s, '?') == 1 by {
      assert s[0] != '?' && s[1] == '?';
    }
  }

  /** `filepath.Join(dir, name)` for a name that is one plain path element. */
  function JoinPath(dir: string, name: string): (p: string)
    ensures HasSuffix(p, "/" + name)
  {
    dir + "/" + name
  }

  /**
   * Appends `ext` unless `name` already ends, ignoring case, in `ext`: the name is kept, or it
   * gains `ext` when the URL ends in it and the name does not.
   */
  function KeepExtension(u: string, name: string, ext: string): (r: string)
    ensures r == name || (r == name + ext && HasSuffix(Lower(u), ext) && !HasSuffix(Lower(name), ext))
  {
    if HasSuffix(Lower(u), ext) && !HasSuffix(Lower(name), ext) then name + ext else name
  }

  /**
   * The local file name `download` derives from an item URL: the sanitized base name (or
   * `file` when that is empty), followed by `.pdf` or `.jpeg` when the URL ends in one and
   * the name does not already.  It is never empty and never holds a path separator; it ends,
   * ignoring case, in the extension the URL ends in; for an accepted URL it is therefore not
   * `.` or `..` either, so the file `download` writes stays inside the staging directory.
   */
  function LocalName(u: string): (r: string)
    ensures r != "" && '/' !in r && '\\' !in r
    ensures HasSuffix(Lower(u), PdfSuffix) ==> HasSuffix(Lower(r), PdfSuffix)
    ensures HasSuffix(Lower(u), JpegSuffix) ==> HasSuffix(Lower(r), JpegSuffix)
    ensures IsAllowed(u) ==> r != "." && r != ".."
  {
    NameWithExtensionFacts(u, SafeName(Base(u)));
    NameWithExtension(u, SafeName(Base(u)))
  }

  /**
   * The fallback to `file` and the two extension steps, applied to a sanitized name `n`: at
   * most one of the two extensions is appended.
   */
  function NameWithExtension(u: string, n: string): (r: string)
    ensures var f := if n == "" then "file" else n;
      r == f || r == f + PdfSuffix || r == f + JpegSuffix
  {
    var f := if n == "" then "file" else n;
    SuffixesExclusive(Lower(u));
    KeepExtension(u, KeepExtension(u, f, PdfSuffix), JpegSuffix)
  }

  lemma LowerSuffix(s: string, ext: string)
    requires ext == PdfSuffix || ext == JpegSuffix
    ensures HasSuffix(Lower(s + ext), ext)
    ensures '/' !in s ==> '/' !in s + ext
    ensures '\\' !in s ==> '\\' !in s + ext
  {
    LowerAppend(s, ext);
    LowerOfSuffixes();
  }

  /** The two accepted extensions are already lower case. */
  lemma LowerOfSuffixes()
    ensures Lower(PdfSuffix) == PdfSuffix && Lower(JpegSuffix) == JpegSuffix
  {
    var p, j := Lower(PdfSuffix), Lower(JpegSuffix);
    assert p[0] == '.' && p[1] == 'p' && p[2] == 'd' && p[3] == 'f';
    assert j[0] == '.' && j[1] == 'j' && j[2] == 'p' && j[3] == 'e' && j[4] == 'g';
  }

  /** A `.pdf` name never also ends in `.jpeg`, and the other way round. */
  lemma SuffixesExclusive(s: string)
    ensures !(HasSuffix(s, PdfSuffix) && HasSuffix(s, JpegSuffix))
  {
    if HasSuffix(s, PdfSuffix) {
      assert s[|s| - 1] == PdfSuffix[3];
    }
  }

  /**
   * One extension step of `download`: the result ends in `ext` whenever the URL does, keeps
   * the name otherwise, and adds no path separator.
   */
  lemma KeepExtensionFacts(u: string, name: string, ext: string)
    requires ext == PdfSuffix || ext == JpegSuffix
    ensures var r := KeepExtension(u, name, ext);
      && (HasSuffix(Lower(u), ext) ==> HasSuffix(Lower(r), ext))
      && (HasSuffix(Lower(name), ext) ==> r == name)
      && (!HasSuffix(Lower(u), ext) ==> r == name)
      && ('/' !in name ==> '/' !in r) && ('\\' !in name ==> '\\' !in r)
  {
    LowerSuffix(name, ext);
  }

  /**
   * The fallback and both extension steps add no separator, keep the URL's extension, and for
   * an accepted URL give a name that ends in an extension, so never `.` or `..`.
   */
  lemma NameWithExtensionFacts(u: string, n: string)
    ensures var r := NameWithExtension(u, n);
      && ('/' !in n ==> '/' !in r) && ('\\' !in n ==> '\\' !in r)
      && (HasSuffix(Lower(u), PdfSuffix) ==> HasSuffix(Lower(r), PdfSuffix))
      && (HasSuffix(Lower(u), JpegSuffix) ==> HasSuffix(Lower(r), JpegSuffix))
      && (IsAllowed(u) ==> r != "." && r != "..")
  {
    NameWithExtensionAbsent(u, n, '/');
    NameWithExtensionAbsent(u, n, '\\');
    NameWithExtensionPdf(u, n);
    NameWithExtensionJpeg(u, n);
    var r := NameWithExtension(u, n);
    if IsAllowed(u) {
      assert |Lower(r)| == |r| >= 4;
    }
  }

  lemma NameWithExtensionAbsent(u: string, n: string, x: char)
    requires x == '/' || x == '\\'
    ensures x !in n ==> x !in NameWithExtension(u, n)
  {
    var f := if n == "" then "file" else n;
    var g := KeepExtension(u, f, PdfSuffix);
    KeepExtensionFacts(u, f, PdfSuffix);
    KeepExtensionFacts(u, g, JpegSuffix);
  }

  lemma NameWithExtensionPdf(u: string, n: string)
    ensures HasSuffix(Lower(u), PdfSuffix) ==> HasSuffix(Lower(NameWithExtension(u, n)), PdfSuffix)
  {
    var f := if n == "" then "file" else n;
    var g := KeepExtension(u, f, PdfSuffix);
    KeepExtensionFacts(u, f, PdfSuffix);
    KeepExtensionFacts(u, g, JpegSuffix);
    SuffixesExclusive(Lower(u));
  }

  lemma NameWithExtensionJpeg(u: string, n: string)
    ensures HasSuffix(Lower(u), JpegSuffix) ==> HasSuffix(Lower(NameWithExtension(u, n)), JpegSuffix)
  {
    var f := if n == "" then "file" else n;
    var g := KeepExtension(u, f, PdfSuffix);
    KeepExtensionFacts(u, g, JpegSuffix);
  }

  /** A URL whose sanitized base name already carries its extension keeps that name as it is. */
  lemma LocalNameKeepsTypedName(u: string)
    requires SafeName(Base(u)) != ""
    requires HasSuffix(Lower(u), PdfSuffix) ==> HasSuffix(Lower(SafeName(Base(u))), PdfSuffix)
    requires HasSuffix(Lower(u), JpegSuffix) ==> HasSuffix(Lower(SafeName(Base(u))), JpegSuffix)
    ensures LocalName(u) == SafeName(Base(u))
  {
  }

  /** What follows the last `/` of `p + "/" + q` is `q` when `q` holds no `/`. */
  lemma {:induction false} AfterLastSlashOf(p: string, q: string)
    requires '/' !in q
    ensures AfterLastSlash(p + "/" + q) == q
  {
    if q != [] {
      var w := p + "/" + q;
      assert w[..|w| - 1] == p + "/" + q[..|q| - 1];
      AfterLastSlashOf(p, q[..|q| - 1]);
      assert q == q[..|q| - 1] + [q[|q| - 1]];
    } else {
      assert (p + "/" + q)[|p + "/" + q| - 1] == '/';
    }
  }

  /**
   * `filepath.Base` of a path whose last element is `q`, followed by any number of slashes, is
   * `q`.
   */
  lemma BaseOfElement(dir: string, q: string, slashes: string)
    requires dir == [] || dir[|dir| - 1] == '/'
    requires q != [] && '/' !in q
    requires forall k :: 0 <= k < |slashes| ==> slashes[k] == '/'
    ensures Base(dir + q + slashes) == q
  {
    StripSlashesOf(dir + q, slashes);
    if dir != [] {
      var d := dir[..|dir| - 1];
      assert d + "/" + q == dir + q;
      AfterLastSlashOf(d, q);
    }
  }

  /** Stripping the trailing slashes of `p + slashes` gives back `p` when `p` ends in another character. */
  lemma {:induction false} StripSlashesOf(p: string, slashes: string)
    requires p != [] && p[|p| - 1] != '/'
    requires forall k :: 0 <= k < |slashes| ==> slashes[k] == '/'
    ensures StripTrailingSlashes(p + slashes) == p
    decreases |slashes|
  {
    if slashes == [] {
      assert p + slashes == p;
    } else {
      var w := p + slashes;
      assert w[..|w| - 1] == p + slashes[..|slashes| - 1];
      StripSlashesOf(p, slashes[..|slashes| - 1]);
    }
  }

  /**
   * The fallback name: an accepted URL whose sanitized base name is empty is stored as `file`
   * followed by the URL's extension.
   */
  lemma LocalNameOfEmpty(u: string)
    requires IsAllowed(u)
    ensures SafeName(Base(u)) == "" ==>
      LocalName(u) == if HasSuffix(Lower(u), PdfSuffix) then "file.pdf" else "file.jpeg"
  {
    NameWithExtensionOfEmpty(u);
  }

  lemma NameWithExtensionOfEmpty(u: string)
    requires IsAllowed(u)
    ensures NameWithExtension(u, "") == if HasSuffix(Lower(u), PdfSuffix) then "file.pdf" else "file.jpeg"
  {
    FallbackExtension();
    SuffixesExclusive(Lower(u));
  }

  /** The facts about the generic name `file` that the fallback needs. */
  lemma FallbackExtension()
    ensures "file" + PdfSuffix == "file.pdf" && "file" + JpegSuffix == "file.jpeg"
    ensures HasSuffix(Lower("file.pdf"), PdfSuffix) && !HasSuffix(Lower("file.pdf"), JpegSuffix)
    ensures !HasSuffix(Lower("file"), PdfSuffix) && !HasSuffix(Lower("file"), JpegSuffix)
  {
    assert Lower("file.pdf")[4..] == ".pdf";
    assert Lower("file.pdf")[3] == 'e';
    assert Lower("file")[3] == 'e';
  }

  /** A URL whose last element is only a query string, such as `.../?.pdf`, gets the generic name. */
  lemma LocalNameFallback(prefix: string)
    ensures LocalName(prefix + "/?.pdf") == "file.pdf"
  {
    FallbackUrl(prefix);
    FallbackSafeName();
    LocalNameOfEmpty(prefix + "/?.pdf");
  }

  lemma FallbackUrl(prefix: string)
    ensures var u := prefix + "/?.pdf";
      Base(u) == "?.pdf" && HasSuffix(Lower(u), PdfSuffix)
  {
    var u := prefix + "/?.pdf";
    assert Base(u) == "?.pdf" by {
      BaseOfElement(prefix + "/", "?.pdf", "");
      assert prefix + "/" + "?.pdf" + "" == u;
    }
    assert HasSuffix(Lower(u), PdfSuffix) by {
      LowerAppend(prefix, "/?.pdf");
      assert Lower(u)[|u| - 4..] == Lower("/?.pdf")[2..] == ".pdf";
    }
  }

  lemma FallbackSafeName()
    ensures SafeName("?.pdf") == ""
  {
    var b := "?.pdf";
    assert !HasDoubled(b, '.') by {
      assert b[0] != '.' && b[2] != '.';
    }
    SafeNameOfClean(b);
    assert IndexOf(b, '?') == 0;
  }

  // ---- Identifiers -----------------------------------------------------------------------

  newtype byte = x: int | 0 <= x < 256

  /** The lower-case hex digit of a nibble. */
  function HexDigit(v: nat): (c: char)
    requires v < 16
  {
    if v < 10 then ('0' as int + v) as char else ('a' as int + v - 10) as char
  }

  predicate IsHexDigit(c: char)
  {
    '0' <= c <= '9' || 'a' <= c <= 'f'
  }

  /** Go's `hex.EncodeToString`: two lower-case hex digits per byte, high nibble first. */
  function HexEncode(b: seq<byte>): (r: string)
    ensures |r| == 2 * |b|
  {
    if b == [] then ""
    else [HexDigit(b[0] as int / 16), HexDigit(b[0] as int % 16)] + HexEncode(b[1..])
  }

  predicate IsLowerHex(s: string)
  {
    forall k :: 0 <= k < |s| ==> IsHexDigit(s[k])
  }

  /** The nibble a lower-case hex digit stands for. */
  function HexValue(c: char): (v: nat)
    requires IsHexDigit(c)
    ensures v < 16
  {
    if '0' <= c <= '9' then c as int - '0' as int else c as int - 'a' as int + 10
  }

  /** The inverse of `HexEncode` on even-length lower-case hex text. */
  function HexDecode(s: string): (b: seq<byte>)
    requires |s| % 2 == 0 && IsLowerHex(s)
  {
    if s == [] then []
    else [(HexValue(s[0]) * 16 + HexValue(s[1])) as byte] + HexDecode(s[2..])
  }

  /** Hex encoding is lower-case hex text that decodes back to the bytes it came from. */
  lemma {:induction false} HexRoundTrip(b: seq<byte>)
    ensures IsLowerHex(HexEncode(b))
    ensures HexDecode(HexEncode(b)) == b
  {
    if b != [] {
      HexRoundTrip(b[1..]);
      var r := HexEncode(b);
      var hi, lo := b[0] as int / 16, b[0] as int % 16;
      assert r == [HexDigit(hi), HexDigit(lo)] + HexEncode(b[1..]);
      assert r[2..] == HexEncode(b[1..]);
      assert IsHexDigit(r[0]) && HexValue(r[0]) == hi;
      assert IsHexDigit(r[1]) && HexValue(r[1]) == lo;
      assert forall k :: 2 <= k < |r| ==> r[k] == r[2..][k - 2];
    }
  }

  /** `newID`: the hex text of 16 random bytes, 32 lower-case hex digits. */
  function NewID(entropy: seq<byte>): (id: string)
    requires |entropy| == 16
    ensures |id| == 32 && IsLowerHex(id)
  {
    HexRoundTrip(entropy);
    HexEncode(entropy)
  }

  /** Distinct random draws give distinct identifiers. */
  lemma NewIDInjective(a: seq<byte>, b: seq<byte>)
    requires |a| == 16 && |b| == 16
    ensures NewID(a) == NewID(b) <==> a == b
  {
    HexRoundTrip(a);
    HexRoundTrip(b);
  }
}
