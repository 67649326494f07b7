/**
 * What `processTask` computes for one job: the items are fetched one after the other in the
 * order they were added, successes and failures are collected separately, and the terminal
 * state follows from them and from the outcome of packaging.
 */
module Pipeline {
  import opened Wrappers
  import opened Text
  import opened Naming
  import opened Fetch

  /** The job states `queued`, `running`, `done` and `error`. */
  datatype Status = Queued | Running | Done | Error

  /** The wire form of a status, as `Status` holds it. */
  function StatusText(s: Status): (r: string)
    ensures |r| >= 4
  {
    match s
    case Queued => "queued"
    case Running => "running"
    case Done => "done"
    case Error => "error"
  }

  /** Distinct states have distinct texts, so the text identifies the state. */
  lemma StatusTextInjective(a: Status, b: Status)
    ensures StatusText(a) == StatusText(b) <==> a == b
  {
    if StatusText(a) == StatusText(b) {
      assert StatusText(a)[0] == StatusText(b)[0];
    }
  }

  /** One item's fetch: the staged file's path, or the error message. */
  type Outcome = Result<string, string>

  /** The outcome of every item's download, in item order. */
  function Outcomes(items: seq<string>, replies: seq<Reply>, dir: string, limitMB: nat): (outs: seq<Outcome>)
    requires |replies| == |items|
    ensures |outs| == |items|
  {
    seq(|items|, k requires 0 <= k < |items| => Download(items[k], dir, replies[k], limitMB))
  }

  /** The staged paths of the successful fetches, in item order (`downloaded`); never more than the fetches. */
  function Downloaded(outs: seq<Outcome>): (r: seq<string>)
  {
    if outs == [] then []
    else
      var last := outs[|outs| - 1];
      Downloaded(outs[..|outs| - 1]) + (if last.Ok? then [last.value] else [])
  }

  /**
   * The error line of a failed item (`fmt.Sprintf("%s: %v", u, err)`): it starts with the URL,
   * ends with the error, and has the two-character separator between them.
   */
  function FailureLine(u: string, e: string): (r: string)
    ensures u <= r && HasSuffix(r, e) && |r| == |u| + 2 + |e|
  {
    u + ": " + e
  }

  /** The error lines of the failed fetches, in item order (`errs`); never more than the fetches. */
  function Failures(items: seq<string>, outs: seq<Outcome>): (r: seq<string>)
    requires |items| == |outs|
  {
    if outs == [] then []
    else
      var n := |outs| - 1;
      Failures(items[..n], outs[..n]) + (if outs[n].Err? then [FailureLine(items[n], outs[n].error)] else [])
  }

  /** The positions of the fetches with the given kind of outcome, in increasing order. */
  ghost function Positions(outs: seq<Outcome>, ok: bool): (p: seq<nat>)
    ensures |p| <= |outs| && forall k :: 0 <= k < |p| ==> p[k] < |outs|
  {
    if outs == [] then []
    else Positions(outs[..|outs| - 1], ok) + (if outs[|outs| - 1].Ok? == ok then [|outs| - 1] else [])
  }

  ghost predicate Increasing(p: seq<nat>)
  {
    forall k, l :: 0 <= k < l < |p| ==> p[k] < p[l]
  }

  /** `Positions` lists, in increasing order, exactly the positions with that kind of outcome. */
  lemma {:induction false} PositionsExact(outs: seq<Outcome>, ok: bool)
    ensures Increasing(Positions(outs, ok))
    ensures forall k :: 0 <= k < |Positions(outs, ok)| ==>
      Positions(outs, ok)[k] < |outs| && outs[Positions(outs, ok)[k]].Ok? == ok
    ensures forall i :: 0 <= i < |outs| && outs[i].Ok? == ok ==> i in Positions(outs, ok)
  {
    if outs != [] {
      var n := |outs| - 1;
      PositionsExact(outs[..n], ok);
      var p := Positions(outs[..n], ok);
      assert forall k :: 0 <= k < |p| ==> outs[p[k]] == outs[..n][p[k]];
    }
  }

  /**
   * Successful paths keep the order in which items were added: the k-th downloaded path is the
   * path fetched for the k-th item that succeeded, and every success is there.
   */
  lemma {:induction false} DownloadedInOrder(outs: seq<Outcome>)
    ensures |Positions(outs, true)| == |Downloaded(outs)|
    ensures forall k :: 0 <= k < |Downloaded(outs)| ==> outs[Positions(outs, true)[k]] == Ok(Downloaded(outs)[k])
  {
    if outs != [] {
      var n := |outs| - 1;
      DownloadedInOrder(outs[..n]);
      var p := Positions(outs[..n], true);
      var d := Downloaded(outs[..n]);
      forall k | 0 <= k < |Downloaded(outs)|
        ensures outs[Positions(outs, true)[k]] == Ok(Downloaded(outs)[k])
      {
        if k < |d| {
          assert Positions(outs, true)[k] == p[k];
          assert Downloaded(outs)[k] == d[k];
          assert outs[p[k]] == outs[..n][p[k]];
        }
      }
    }
  }

  /**
   * Failure lines keep item order too: the k-th line names the k-th failed item and its error,
   * and every failure is there.
   */
  lemma {:induction false} FailuresInOrder(items: seq<string>, outs: seq<Outcome>)
    requires |items| == |outs|
    ensures |Positions(outs, false)| == |Failures(items, outs)|
    ensures forall k :: 0 <= k < |Failures(items, outs)| ==>
      var i := Positions(outs, false)[k];
      outs[i].Err? && Failures(items, outs)[k] == FailureLine(items[i], outs[i].error)
  {
    PositionsExact(outs, false);
    if outs != [] {
      var n := |outs| - 1;
      FailuresInOrder(items[..n], outs[..n]);
      var p := Positions(outs[..n], false);
      var f := Failures(items[..n], outs[..n]);
      forall k | 0 <= k < |f|
        ensures var i := Positions(outs, false)[k];
          outs[i].Err? && Failures(items, outs)[k] == FailureLine(items[i], outs[i].error)
      {
        assert Positions(outs, false)[k] == p[k];
        assert Failures(items, outs)[k] == f[k];
        assert outs[p[k]] == outs[..n][p[k]] && items[p[k]] == items[..n][p[k]];
      }
    }
  }

  /**
   * Every item ends up on exactly one side: successes plus failures are all the items, there
   * are no successes exactly when every fetch failed, and no failures exactly when none did.
   */
  lemma {:induction false} Partition(items: seq<string>, outs: seq<Outcome>)
    requires |items| == |outs|
    ensures |Downloaded(outs)| + |Failures(items, outs)| == |outs|
    ensures Downloaded(outs) == [] <==> forall i :: 0 <= i < |outs| ==> outs[i].Err?
    ensures Failures(items, outs) == [] <==> forall i :: 0 <= i < |outs| ==> outs[i].Ok?
  {
    if outs != [] {
      var n := |outs| - 1;
      Partition(items[..n], outs[..n]);
      assert forall i :: 0 <= i < n ==> outs[..n][i] == outs[i];
    }
  }

  /**
   * `Done` only grows while the loop runs: the successes among the first `i` items are a prefix
   * of the successes among the first `j`, for `i <= j`.
   */
  lemma {:induction false} DownloadedGrows(outs: seq<Outcome>, i: nat, j: nat)
    requires i <= j <= |outs|
    ensures Downloaded(outs[..i]) <= Downloaded(outs[..j])
    ensures |Downloaded(outs[..j])| <= |Downloaded(outs[..i])| + (j - i)
    decreases j - i
  {
    if i < j {
      DownloadedGrows(outs, i, j - 1);
      assert outs[..j][..j - 1] == outs[..j - 1];
    }
  }

  /** One more fetch extends the staged paths or the failure lines by that fetch's outcome. */
  lemma ProgressStep(items: seq<string>, replies: seq<Reply>, dir: string, limitMB: nat, i: nat)
    requires |replies| == |items| && i < |items|
    ensures var outs := Outcomes(items, replies, dir, limitMB);
      var f := Download(items[i], dir, replies[i], limitMB);
      && Downloaded(outs[..i + 1]) == Downloaded(outs[..i]) + (if f.Ok? then [f.value] else [])
      && Failures(items[..i + 1], outs[..i + 1]) ==
           Failures(items[..i], outs[..i]) + (if f.Err? then [FailureLine(items[i], f.error)] else [])
  {
    var outs := Outcomes(items, replies, dir, limitMB);
    assert outs[..i + 1][..i] == outs[..i] && items[..i + 1][..i] == items[..i];
  }

  /**
   * For accepted item URLs every staged path is that item's local name inside the staging
   * directory: one safe path element, never `.` or `..`.
   */
  lemma DownloadedStayInDir(items: seq<string>, replies: seq<Reply>, dir: string, limitMB: nat)
    requires |replies| == |items|
    requires forall k :: 0 <= k < |items| ==> IsAllowed(items[k])
    ensures var outs := Outcomes(items, replies, dir, limitMB);
      forall k :: 0 <= k < |Downloaded(outs)| ==>
        exists i :: 0 <= i < |items| && Downloaded(outs)[k] == dir + "/" + LocalName(items[i])
    ensures forall i :: 0 <= i < |items| ==>
      var n := LocalName(items[i]); n != "" && n != "." && n != ".." && '/' !in n && '\\' !in n
  {
    var outs := Outcomes(items, replies, dir, limitMB);
    DownloadedInOrder(outs);
    forall k | 0 <= k < |Downloaded(outs)|
      ensures exists i :: 0 <= i < |items| && Downloaded(outs)[k] == dir + "/" + LocalName(items[i])
    {
      var i := Positions(outs, true)[k];
      DownloadSucceeds(items[i], dir, replies[i], limitMB);
    }
  }

  const AllFailed := "all downloads failed"

  function ZipError(detail: string): (m: string)
  {
    "zip error: " + detail
  }

  /** Where a job's archive goes: `<outDir>/<id>.zip`. */
  function ArchivePath(outDir: string, id: string): (p: string)
  {
    JoinPath(outDir, id + ".zip")
  }

  /** The terminal state of a job: its status, its error text and the archive it records, if any. */
  datatype Conclusion = Conclusion(status: Status, error: string, archive: Option<string>)

  /**
   * How `processTask` ends, given the fetch outcomes and the outcome of packaging: always in a
   * terminal state, with an archive exactly when it is done, and with an error text whenever it
   * is not.
   */
  function Conclude(items: seq<string>, outs: seq<Outcome>, archive: string, packFailure: Option<string>): (r: Conclusion)
    requires |items| == |outs|
    ensures r.status == Done || r.status == Error
    ensures r.status == Done <==> r.archive == Some(archive)
    ensures r.status == Error ==> r.error != "" && r.archive == None
  {
    if Downloaded(outs) == [] then Conclusion(Error, AllFailed, None)
    else if packFailure.Some? then Conclusion(Error, ZipError(packFailure.value), None)
    else Conclusion(Done, Join(Failures(items, outs), "; "), Some(archive))
  }

  /**
   * The outcome of processing: all fetches failed gives `error` with "all downloads failed";
   * a packaging failure gives `error` with "zip error: ..."; otherwise the job is `done`,
   * records the archive, and its error text is the failure lines joined with "; ", empty
   * exactly when no item failed.
   */
  lemma ConcludeCases(items: seq<string>, outs: seq<Outcome>, archive: string, packFailure: Option<string>)
    requires |items| == |outs|
    ensures var c := Conclude(items, outs, archive, packFailure);
      && ((forall i :: 0 <= i < |outs| ==> outs[i].Err?) ==> c == Conclusion(Error, AllFailed, None))
      && ((exists i :: 0 <= i < |outs| && outs[i].Ok?) && packFailure.Some? ==>
            c == Conclusion(Error, ZipError(packFailure.value), None))
      && (c.status == Done <==> (exists i :: 0 <= i < |outs| && outs[i].Ok?) && packFailure.None?)
      && (c.status == Done ==> c.archive == Some(archive) && c.error == Join(Failures(items, outs), "; "))
      && (c.status == Done ==> (c.error == "" <==> forall i :: 0 <= i < |outs| ==> outs[i].Ok?))
      && (c.status != Done ==> c.status == Error && c.archive == None && c.error != "")
  {
    Partition(items, outs);
    FailureLinesNonEmpty(items, outs);
    JoinEmpty(Failures(items, outs), "; ");
  }

  /** Every failure line is non-empty: it holds at least the ": " between URL and error. */
  lemma {:induction false} FailureLinesNonEmpty(items: seq<string>, outs: seq<Outcome>)
    requires |items| == |outs|
    ensures forall k :: 0 <= k < |Failures(items, outs)| ==> Failures(items, outs)[k] != ""
  {
    if outs != [] {
      var n := |outs| - 1;
      FailureLinesNonEmpty(items[..n], outs[..n]);
    }
  }

  /**
   * A job with `n` items of which `k` were fetched, `0 < k < n`, and an archive that could be
   * written ends `done` with `k` successes and an error text that lists the `n - k` failures.
   */
  lemma PartialSuccess(items: seq<string>, outs: seq<Outcome>, archive: string)
    requires |items| == |outs|
    requires 0 < |Downloaded(outs)| < |outs|
    ensures var c := Conclude(items, outs, archive, None);
      && c.status == Done && c.error != "" && c.archive == Some(archive)
      && |Failures(items, outs)| == |outs| - |Downloaded(outs)|
  {
    Partition(items, outs);
    ConcludeCases(items, outs, archive, None);
  }

  /**
   * When every reply is accepted and the archive can be written, every item is fetched and the
   * job ends `done` with its archive and an empty error text.
   */
  lemma FullSuccess(items: seq<string>, replies: seq<Reply>, dir: string, limitMB: nat, archive: string)
    requires |replies| == |items| && items != []
    requires forall k :: 0 <= k < |replies| ==> Accepted(replies[k], limitMB)
    ensures var outs := Outcomes(items, replies, dir, limitMB);
      && |Downloaded(outs)| == |items|
      && Conclude(items, outs, archive, None) == Conclusion(Done, "", Some(archive))
  {
    var outs := Outcomes(items, replies, dir, limitMB);
    forall k | 0 <= k < |outs| ensures outs[k].Ok? {
      DownloadSucceeds(items[k], dir, replies[k], limitMB);
    }
    Partition(items, outs);
  }
}
