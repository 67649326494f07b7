/**
 * The job manager: a registry of tasks, a fixed number of run slots, and the per-task rules for
 * adding items, starting, and processing.  Locks and goroutines are not modelled: every
 * operation runs as one step, and the goroutine that `Run` starts is the method `Execute`.
 */
module TaskManager {
  import opened Wrappers
  import opened Text
  import opened Naming
  import opened Fetch
  import opened Pipeline

  /** The most items a task may hold. */
  const MaxItems := 3

  /** The error conditions of the manager's operations. */
  datatype TaskError =
    | NotFound
    | TooManyItems
    | AlreadyStarted
    | Busy
    | NoItems
    | UnsupportedType
    | BadUrl(detail: string)

  /** The error text: never empty; a bad URL carries the parser's detail at its end (`%w`). */
  function Message(e: TaskError): (m: string)
    ensures m != ""
    ensures e.BadUrl? ==> HasSuffix(m, e.detail)
  {
    match e
    case NotFound => "task not found"
    case TooManyItems => "too many items"
    case AlreadyStarted => "task already started"
    case Busy => "too many tasks running"
    case NoItems => "no items"
    case UnsupportedType => "unsupported type"
    case BadUrl(detail) =>
      var m := "bad url: " + detail;
      assert m[|m| - |detail|..] == detail;
      m
  }

  /** A copy of a task's fields, as `Status` hands it out. */
  datatype Snapshot = Snapshot(
    id: string, items: seq<string>, started: bool, status: Status,
    error: string, resultPath: string, added: int, done: int)

  class Task {
    const id: string
    var items: seq<string>
    var started: bool
    var status: Status
    var error: string
    var resultPath: string
    var added: int
    var done: int

    /**
     * The task invariant: at most three accepted items, `added` counts them, progress stays
     * within them, an unstarted task is queued, a queued one has no progress and no error, and
     * a result path exists exactly for a done task.
     */
    ghost predicate Valid()
      reads this
    {
      && |items| <= MaxItems
      && added == |items|
      && (forall k :: 0 <= k < |items| ==> IsAllowed(items[k]))
      && 0 <= done <= |items|
      && (!started ==> status == Queued)
      && (status == Queued ==> done == 0 && error == "")
      && (resultPath != "" <==> status == Done)
    }

    constructor (id: string)
      ensures Valid() && this.id == id && items == [] && !started && status == Queued
      ensures error == "" && resultPath == "" && added == 0 && done == 0
    {
      this.id := id;
      items := [];
      started := false;
      status := Queued;
      error := "";
      resultPath := "";
      added := 0;
      done := 0;
    }

    /** A copy of the fields; the copy of a valid task satisfies the task invariant too. */
    function Snap(): (s: Snapshot)
      reads this
      ensures Valid() ==>
        && s.added == |s.items| <= MaxItems && 0 <= s.done <= s.added
        && (!s.started ==> s.status == Queued)
        && (s.resultPath != "" <==> s.status == Done)
    {
      Snapshot(id, items, started, status, error, resultPath, added, done)
    }
  }

  class Manager {
    var tasks: map<string, Task>
    /** The slots in use: the number of tokens in the semaphore channel. */
    var busy: nat
    /** The channel's capacity. */
    const parallel: nat
    const tmpDir: string
    const outDir: string
    const limitMB: nat
    /** The tasks that hold a slot and whose run has not yet finished. */
    ghost var admitted: set<Task>

    ghost predicate Valid()
      reads this, tasks.Values, admitted
    {
      && busy == |admitted| <= parallel
      && (forall t :: t in tasks.Values ==> t.Valid())
      && (forall t :: t in admitted ==> t.Valid() && t.started && t.status == Queued && t.items != [])
    }

    /** `NewManager`: no tasks, no slot taken, a 25 MB ceiling. */
    constructor (parallel: nat)
      ensures Valid() && tasks == map[] && busy == 0 && admitted == {} && this.parallel == parallel
      ensures tmpDir == "tmp" && outDir == "results" && limitMB == 25
    {
      tasks := map[];
      busy := 0;
      this.parallel := parallel;
      tmpDir := "tmp";
      outDir := "results";
      limitMB := 25;
      admitted := {};
    }

    /** `get`: the task registered under `id`, if any. */
    function Get(id: string): (r: Option<Task>)
      reads this
      ensures r.Some? <==> id in tasks
      ensures r.Some? ==> r.value == tasks[id] && r.value in tasks.Values
    {
      if id in tasks then Some(tasks[id]) else None
    }

    /**
     * `Create`: registers a fresh queued task under the hex text of 16 random bytes (the bytes
     * are the input here; an identifier drawn twice replaces the earlier entry, as the map does).
     */
    method Create(entropy: seq<byte>) returns (t: Task)
      requires Valid() && |entropy| == 16
      modifies this`tasks
      ensures Valid() && fresh(t)
      ensures t.id == NewID(entropy) && tasks == old(tasks)[t.id := t]
      ensures t.items == [] && !t.started && t.status == Queued && t.error == "" && t.resultPath == ""
      ensures t.added == 0 && t.done == 0
    {
      var id := NewID(entropy);
      t := new Task(id);
      tasks := tasks[id := t];
    }

    /**
     * `AddItem`: appends `rawurl` to an unstarted task with fewer than three items whose URL has
     * an accepted extension and parses; `uriFailure` is what `url.ParseRequestURI` reports.
     * Returns the item count, the limit and the error; on an error nothing changes.
     */
    method AddItem(id: string, rawurl: string, uriFailure: Option<string>)
      returns (added: int, limit: int, err: Option<TaskError>)
      requires Valid()
      modifies if id in tasks then {tasks[id]} else {}
      ensures Valid() && limit == MaxItems
      ensures id !in tasks ==> added == 0 && err == Some(NotFound)
      ensures id in tasks ==>
        var t := tasks[id];
        var refused := old(t.started) || old(t.status) == Running || old(t.status) == Done;
        && (refused ==> err == Some(AlreadyStarted) && added == 0)
        && (!refused && old(|t.items|) >= MaxItems ==> err == Some(TooManyItems) && added == old(|t.items|))
        && (!refused && old(|t.items|) < MaxItems && !IsAllowed(rawurl) ==>
              err == Some(UnsupportedType) && added == old(|t.items|))
        && (!refused && old(|t.items|) < MaxItems && IsAllowed(rawurl) && uriFailure.Some? ==>
              err == Some(BadUrl(uriFailure.value)) && added == old(|t.items|))
        && (err.Some? ==> unchanged(t))
        && (err.None? <==> !refused && old(|t.items|) < MaxItems && IsAllowed(rawurl) && uriFailure.None?)
        && (err.None? ==>
              && t.items == old(t.items) + [rawurl] && t.added == |t.items| && added == t.added
              && t.started == old(t.started) && t.status == old(t.status) && t.error == old(t.error)
              && t.resultPath == old(t.resultPath) && t.done == old(t.done))
    {
      limit := MaxItems;
      var found := Get(id);
      if found.None? {
        return 0, limit, Some(NotFound);
      }
      var t := found.value;
      if t.started || t.status == Running || t.status == Done {
        return 0, limit, Some(AlreadyStarted);
      }
      if |t.items| >= MaxItems {
        return |t.items|, limit, Some(TooManyItems);
      }
      if !IsAllowed(rawurl) {
        return |t.items|, limit, Some(UnsupportedType);
      }
      if uriFailure.Some? {
        return |t.items|, limit, Some(BadUrl(uriFailure.value));
      }
      t.items := t.items + [rawurl];
      t.added := |t.items|;
      return t.added, limit, None;
    }

    /**
     * `Run`: admission control.  A started task or one without items is refused as it is; when
     * every slot is taken the task is refused as busy and left unstarted, so it can be run again;
     * otherwise the task is marked started and takes one slot until `Execute` gives it back.
     */
    method Run(id: string) returns (err: Option<TaskError>)
      requires Valid()
      modifies this`busy, this`admitted, if id in tasks then {tasks[id]} else {}
      ensures Valid() && busy <= parallel
      ensures id !in tasks ==> err == Some(NotFound)
      ensures id in tasks ==>
        var t := tasks[id];
        && (old(t.started) ==> err == Some(AlreadyStarted))
        && (!old(t.started) && old(t.items) == [] ==> err == Some(NoItems))
        && (!old(t.started) && old(t.items) != [] && old(busy) == parallel ==> err == Some(Busy) && !t.started)
        && (err.Some? ==> t.Snap() == old(t.Snap()) && busy == old(busy) && admitted == old(admitted))
        && (err.None? <==> !old(t.started) && old(t.items) != [] && old(busy) < parallel)
        && (err.None? ==>
              && t.started && t.status == Queued && busy == old(busy) + 1
              && admitted == old(admitted) + {t} && t !in old(admitted)
              && t.items == old(t.items) && t.added == old(t.added) && t.done == old(t.done)
              && t.error == old(t.error) && t.resultPath == old(t.resultPath))
      ensures id !in tasks ==> busy == old(busy) && admitted == old(admitted)
    {
      var found := Get(id);
      if found.None? {
        return Some(NotFound);
      }
      var t := found.value;
      err := MarkStarted(t);
      if err.Some? {
        return;
      }
      if busy == parallel {
        t.started := false;
        forall u | u in tasks.Values || u in admitted ensures u.Valid() {
          if u != t {
            assert u in old(tasks.Values) || u in old(admitted);
          }
        }
        return Some(Busy);
      }
      TakeSlot(t);
    }

    /**
     * The locked part of `Run`: a started task or one without items is refused and left as it
     * is; otherwise the task is marked started and queued.
     */
    method MarkStarted(t: Task) returns (err: Option<TaskError>)
      requires Valid() && t in tasks.Values
      modifies t
      ensures Valid()
      ensures old(t.started) ==> err == Some(AlreadyStarted)
      ensures !old(t.started) && old(t.items) == [] ==> err == Some(NoItems)
      ensures err.Some? ==> unchanged(t)
      ensures err.None? <==> !old(t.started) && old(t.items) != []
      ensures err.None? ==>
        && t !in admitted && t.started && t.status == Queued && t.status == old(t.status)
        && t.items == old(t.items) && t.added == old(t.added) && t.done == old(t.done)
        && t.error == old(t.error) && t.resultPath == old(t.resultPath)
    {
      if t.started {
        return Some(AlreadyStarted);
      }
      if |t.items| == 0 {
        return Some(NoItems);
      }
      assert t !in admitted;
      t.started := true;
      t.status := Queued;
      forall u | u in tasks.Values ensures u.Valid() {
        if u != t {
          assert u in old(tasks.Values);
        }
      }
      return None;
    }

    /** The non-blocking send on the semaphore channel, when a slot is free: `t` now holds it. */
    method TakeSlot(t: Task)
      requires Valid() && busy < parallel && t !in admitted
      requires t.Valid() && t.started && t.status == Queued && t.items != []
      modifies this`busy, this`admitted
      ensures Valid() && busy == old(busy) + 1 && admitted == old(admitted) + {t}
    {
      busy := busy + 1;
      admitted := admitted + {t};
    }

    /** `Status`: a copy of the task's fields, or nothing for an unknown id. */
    method Status(id: string) returns (snap: Option<Snapshot>)
      ensures id in tasks ==> snap == Some(tasks[id].Snap())
      ensures id !in tasks ==> snap == None
    {
      var found := Get(id);
      if found.None? {
        return None;
      }
      var t := found.value;
      return Some(t.Snap());
    }

    /**
     * The fetch loop of `processTask`: fetches the items one by one in order (`replies[i]`
     * answers item `i`), collecting the staged paths and the failure lines, and keeps `done`
     * equal to the successes so far; `done` never goes down.
     */
    method FetchItems(t: Task, replies: seq<Reply>, dir: string) returns (downloaded: seq<string>, errs: seq<string>)
      requires |replies| == |t.items| && t.done == 0
      modifies t`done
      ensures var outs := Outcomes(t.items, replies, dir, limitMB);
        && downloaded == Downloaded(outs) && errs == Failures(t.items, outs)
      ensures t.done == |downloaded| <= |t.items|
    {
      var items := t.items;
      ghost var outs := Outcomes(items, replies, dir, limitMB);
      downloaded, errs := [], [];
      var i := 0;
      while i < |items|
        invariant 0 <= i <= |items|
        invariant downloaded == Downloaded(outs[..i])
        invariant errs == Failures(items[..i], outs[..i])
        invariant |downloaded| <= i
        invariant t.done == |downloaded|
      {
        var u := items[i];
        var fetched := Download(u, dir, replies[i], limitMB);
        ProgressStep(items, replies, dir, limitMB, i);
        ghost var before := t.done;
        if fetched.Err? {
          errs := errs + [FailureLine(u, fetched.error)];
        } else {
          downloaded := downloaded + [fetched.value];
        }
        assert before <= |downloaded| <= before + 1;
        t.done := |downloaded|;
        i := i + 1;
      }
      assert outs[..i] == outs && items[..i] == items;
    }

    /**
     * `processTask`: marks the task running, fetches its items, and ends in the state
     * `Conclude` gives for the outcomes and for `packFailure`, the outcome of writing the
     * archive.
     */
    method ProcessTask(t: Task, replies: seq<Reply>, packFailure: Option<string>)
      requires |replies| == |t.items|
      modifies t
      ensures t.items == old(t.items) && t.started == old(t.started) && t.added == old(t.added)
      ensures var outs := Outcomes(t.items, replies, JoinPath(tmpDir, t.id), limitMB);
        var c := Conclude(t.items, outs, ArchivePath(outDir, t.id), packFailure);
        && t.done == |Downloaded(outs)|
        && t.status == c.status && t.error == c.error
        && t.resultPath == (if c.archive.Some? then c.archive.value else old(t.resultPath))
      ensures t.status != Queued && t.done <= |t.items|
      ensures old(t.resultPath) == "" ==> (t.resultPath != "" <==> t.status == Done)
    {
      t.status := Running;
      t.error := "";
      t.done := 0;
      var dir := JoinPath(tmpDir, t.id);
      var downloaded, errs := FetchItems(t, replies, dir);
      if |downloaded| == 0 {
        t.status := Error;
        t.error := AllFailed;
        return;
      }
      var out := ArchivePath(outDir, t.id);
      if packFailure.Some? {
        t.status := Error;
        t.error := ZipError(packFailure.value);
        return;
      }
      t.resultPath := out;
      if |errs| > 0 {
        t.status := Done;
        t.error := Join(errs, "; ");
      } else {
        t.status := Done;
      }
    }

    /**
     * The goroutine `Run` starts for an admitted task: process it, then give its slot back,
     * on every way out.
     */
    method Execute(t: Task, replies: seq<Reply>, packFailure: Option<string>)
      requires Valid() && t in admitted && |replies| == |t.items|
      modifies this`busy, this`admitted, t
      ensures Valid() && busy == old(busy) - 1 && admitted == old(admitted) - {t}
      ensures t.items == old(t.items) && t.started && t.added == old(t.added)
      ensures var outs := Outcomes(t.items, replies, JoinPath(tmpDir, t.id), limitMB);
        var c := Conclude(t.items, outs, ArchivePath(outDir, t.id), packFailure);
        && t.done == |Downloaded(outs)| && t.status == c.status && t.error == c.error
        && t.resultPath == (if c.status == Done then ArchivePath(outDir, t.id) else "")
    {
      assert t.Valid() && t.resultPath == "";
      ProcessTask(t, replies, packFailure);
      assert t.Valid();
      busy := busy - 1;
      admitted := admitted - {t};
      assert |admitted| == |old(admitted)| - 1;
      forall u | u in admitted ensures u.Valid() && u.started && u.status == Queued && u.items != [] {
        assert u != t && u in old(admitted);
      }
    }
  }
}

/**
 * Client scenarios: what a caller of the manager can conclude from the contracts alone.
 */
module Scenarios {
  import opened Wrappers
  import opened Naming
  import opened Fetch
  import opened Pipeline
  import opened TaskManager

  /** A manager with one slot and a fresh task registered under its identifier. */
  method NewTask(entropy: seq<byte>) returns (m: Manager, t: Task)
    requires |entropy| == 16
    ensures m.Valid() && m.parallel == 1 && m.busy == 0 && m.limitMB == 25
    ensures t.id in m.tasks && m.tasks[t.id] == t && !t.started && t.status == Queued && t.items == []
  {
    m := new Manager(1);
    t := m.Create(entropy);
  }

  /** Two accepted items and a refused `.gif`: the task holds the two accepted URLs in order. */
  method TwoItemsQueued(m: Manager, t: Task, pdf: string, jpeg: string, gif: string)
    requires IsAllowed(pdf) && IsAllowed(jpeg) && !IsAllowed(gif)
    requires m.Valid() && t.id in m.tasks && m.tasks[t.id] == t
    requires !t.started && t.status == Queued && t.items == []
    modifies t
    ensures m.Valid() && t.id in m.tasks && m.tasks[t.id] == t && !t.started && t.status == Queued
    ensures t.items == [pdf, jpeg]
  {
    var added, limit, err := m.AddItem(t.id, pdf, None);
    assert err == None && added == 1 && t.items == [pdf];
    added, limit, err := m.AddItem(t.id, jpeg, None);
    assert err == None && added == 2 && t.items == [pdf, jpeg];
    added, limit, err := m.AddItem(t.id, gif, None);
    assert err == Some(UnsupportedType) && added == 2;
  }

  /**
   * Running that task admits it; a second `Run` and a late `AddItem` are refused as already
   * started and change nothing.
   */
  method StartTwice(m: Manager, t: Task, pdf: string, jpeg: string)
    requires m.Valid() && m.parallel == 1 && m.busy == 0
    requires t.id in m.tasks && m.tasks[t.id] == t && !t.started && t.status == Queued
    requires t.items == [pdf, jpeg]
    modifies m, t
    ensures m.Valid() && t in m.admitted && t.items == [pdf, jpeg] && t.added == 2
  {
    var r := m.Run(t.id);
    assert r == None;
    r := m.Run(t.id);
    assert r == Some(AlreadyStarted);
    var added, limit, err := m.AddItem(t.id, pdf, None);
    assert err == Some(AlreadyStarted);
  }

  /**
   * When both downloads of the admitted task succeed and the archive is written, the task
   * ends `done` with both items fetched and its archive recorded.
   */
  method TwoItemsDone(m: Manager, t: Task, pdf: string, jpeg: string)
    requires m.Valid() && m.limitMB == 25 && t in m.admitted && t.items == [pdf, jpeg] && t.added == 2
    modifies m, t
  {
    var ok := Reply(Response(StatusOK, Body([], None)), None);
    FullSuccess([pdf, jpeg], [ok, ok], JoinPath(m.tmpDir, t.id), m.limitMB, ArchivePath(m.outDir, t.id));
    m.Execute(t, [ok, ok], None);
    assert t.status == Done && t.added == 2 && t.done == 2 && t.resultPath != "";
  }

  /** A fourth item is refused with the item limit, and the three items stay as they were. */
  method FourthItemRefused(m: Manager, t: Task, pdf: string, jpeg: string)
    requires IsAllowed(pdf) && IsAllowed(jpeg)
    requires m.Valid() && t.id in m.tasks && m.tasks[t.id] == t
    requires !t.started && t.status == Queued && t.items == []
    modifies t
  {
    var added, limit, err := m.AddItem(t.id, pdf, None);
    added, limit, err := m.AddItem(t.id, pdf, None);
    added, limit, err := m.AddItem(t.id, jpeg, None);
    assert added == 3 && limit == 3;
    ghost var items := t.items;
    added, limit, err := m.AddItem(t.id, jpeg, None);
    assert err == Some(TooManyItems) && added == 3 && t.items == items;
  }

  /** Two tasks on a manager with one slot; distinct random bytes give distinct identifiers. */
  method TwoTasks(e1: seq<byte>, e2: seq<byte>) returns (m: Manager, t1: Task, t2: Task)
    requires |e1| == 16 && |e2| == 16 && e1 != e2
    ensures m.Valid() && m.parallel == 1 && m.busy == 0 && t1 != t2 && t1.id != t2.id
    ensures t1.id in m.tasks && m.tasks[t1.id] == t1 && !t1.started && t1.status == Queued && t1.items == []
    ensures t2.id in m.tasks && m.tasks[t2.id] == t2 && !t2.started && t2.status == Queued && t2.items == []
  {
    m := new Manager(1);
    t1 := m.Create(e1);
    t2 := m.Create(e2);
    NewIDInjective(e1, e2);
  }

  /** One item for each of the two tasks. */
  method OneItemEach(m: Manager, t1: Task, t2: Task, pdf: string, jpeg: string)
    requires IsAllowed(pdf) && IsAllowed(jpeg)
    requires m.Valid() && m.parallel == 1 && m.busy == 0 && t1 != t2 && t1.id != t2.id
    requires t1.id in m.tasks && m.tasks[t1.id] == t1 && !t1.started && t1.status == Queued && t1.items == []
    requires t2.id in m.tasks && m.tasks[t2.id] == t2 && !t2.started && t2.status == Queued && t2.items == []
    modifies t1, t2
    ensures m.Valid() && m.parallel == 1 && m.busy == 0 && t1 != t2
    ensures t1.id in m.tasks && m.tasks[t1.id] == t1 && !t1.started && |t1.items| == 1
    ensures t2.id in m.tasks && m.tasks[t2.id] == t2 && !t2.started && |t2.items| == 1
  {
    var added, limit, err := m.AddItem(t1.id, pdf, None);
    added, limit, err := m.AddItem(t2.id, jpeg, None);
  }

  /**
   * With one slot, the second task is refused as busy and is left unstarted, so it can be run
   * again; `RetryAfterFinish` continues from this state.
   */
  method BusyRefused(m: Manager, t1: Task, t2: Task)
    requires m.Valid() && m.parallel == 1 && m.busy == 0 && t1 != t2
    requires t1.id in m.tasks && m.tasks[t1.id] == t1 && !t1.started && |t1.items| == 1
    requires t2.id in m.tasks && m.tasks[t2.id] == t2 && !t2.started && |t2.items| == 1
    modifies m, t1, t2
    ensures m.Valid() && m.parallel == 1 && t1 in m.admitted && |t1.items| == 1 && t1 != t2
    ensures t2.id in m.tasks && m.tasks[t2.id] == t2 && !t2.started && |t2.items| == 1
  {
    var r := m.Run(t1.id);
    assert r == None && m.busy == 1;
    r := m.Run(t2.id);
    assert r == Some(Busy);
  }

  /** Once the running task has finished, its slot is free and the refused task is admitted. */
  method RetryAfterFinish(m: Manager, t1: Task, t2: Task, replies: seq<Reply>)
    requires m.Valid() && m.parallel == 1 && t1 in m.admitted && |replies| == |t1.items| && t1 != t2
    requires t2.id in m.tasks && m.tasks[t2.id] == t2 && !t2.started && t2.items != []
    modifies m, t1, t2
  {
    m.Execute(t1, replies, None);
    assert m.busy == 0;
    var r := m.Run(t2.id);
    assert r == None && t2.started && m.busy == 1;
  }
}
