/**
 * Bookkeeping of the cooperative coroutine scheduler in practice-1/coroutine.
 *
 * The scheduler keeps two append-only registries: every coroutine ever
 * started (its id is its index) and one metadata record per OS thread
 * naming the coroutine currently running on that thread (None: the
 * thread's main flow).  Context switching itself is not modelled: a switch
 * is the update of a thread's `running` slot.  Thread ids are opaque
 * integers passed in by the caller, as `pthread_self()` is in the source.
 */
module Coroutine {
  import opened Wrappers
  import opened Lookup

  // Status codes of coroutine.h.
  const UNAUTHORIZED: int := -1
  const RUNNING: int := 1
  const FINISHED: int := 2

  /** A registry entry: co_struct_t without its stack, saved context and lock. */
  datatype CoRecord = CoRecord(cid: int, tid: int, parent: Option<nat>, status: int, ret: int)

  /** A per-thread record: co_meta_t without the saved main context. */
  datatype CoMeta = CoMeta(tid: int, running: Option<nat>)

  /** The growable array `co_array_t`: `len` used slots out of `cap`. */
  class CoArray<T(0)> {
    var data: array<T>
    var len: nat
    var cap: nat

    ghost predicate Valid()
      reads this
    {
      1 <= cap && cap == data.Length && len <= cap
    }

    /** The values stored so far, oldest first. */
    function Elements(): seq<T>
      reads this, data
      requires Valid()
    {
      data[..len]
    }

    /** co_array_create: an empty array of capacity 1. */
    constructor ()
      ensures Valid() && fresh(data)
      ensures Elements() == [] && cap == 1
    {
      len, cap := 0, 1;
      data := new T[1];
    }

    /** co_array_add: append, doubling the buffer first when it is full. */
    method Add(value: T)
      requires Valid()
      modifies this, data
      ensures Valid()
      ensures Elements() == old(Elements()) + [value]
      ensures cap == if old(len) == old(cap) then 2 * old(cap) else old(cap)
      ensures data == old(data) || fresh(data)
    {
      if len == cap {
        cap := 2 * cap;
        var grown := new T[cap];
        var i := 0;
        while i < len
          invariant 0 <= i <= len
          invariant grown[..i] == data[..i]
          modifies grown
        {
          grown[i] := data[i];
          i := i + 1;
        }
        data := grown;
      }
      data[len] := value;
      len := len + 1;
    }

    /** co_array_get. */
    function Get(i: nat): (v: T)
      reads this, data
      requires Valid() && i < len
      ensures v == Elements()[i]
    {
      data[i]
    }

    /**
     * A store through the pointer held in slot i (the records are kept by
     * value here, so writing a field of the pointee rewrites the slot).
     */
    method Put(i: nat, value: T)
      requires Valid() && i < len
      modifies data
      ensures Valid()
      ensures Elements() == old(Elements())[i := value]
    {
      data[i] := value;
    }
  }

  /** Every parent link points to an earlier coroutine of the same thread. */
  ghost predicate ParentsBelow(cs: seq<CoRecord>)
  {
    forall i | 0 <= i < |cs| && cs[i].parent.Some? ::
      cs[i].parent.value < i && cs[cs[i].parent.value].tid == cs[i].tid
  }

  /** The scheduler's invariant over both registries. */
  ghost predicate WellFormed(cs: seq<CoRecord>, ms: seq<CoMeta>)
  {
    RecordsOk(cs) && ThreadsOk(cs, ms)
  }

  /** Ids are indices, statuses are RUNNING or FINISHED, a running record's ret is -1, parents lie below. */
  ghost predicate RecordsOk(cs: seq<CoRecord>)
  {
    && (forall i | 0 <= i < |cs| :: cs[i].cid == i)
    && (forall i | 0 <= i < |cs| :: cs[i].status == RUNNING || cs[i].status == FINISHED)
    && (forall i | 0 <= i < |cs| && cs[i].status == RUNNING :: cs[i].ret == -1)
    && ParentsBelow(cs)
  }

  /** One metadata record per thread, each running a coroutine of its own thread (or main). */
  ghost predicate ThreadsOk(cs: seq<CoRecord>, ms: seq<CoMeta>)
  {
    && (forall i, j | 0 <= i < j < |ms| :: ms[i].tid != ms[j].tid)
    && (forall k | 0 <= k < |ms| && ms[k].running.Some? ::
          ms[k].running.value < |cs| && cs[ms[k].running.value].tid == ms[k].tid)
  }

  /**
   * How the coroutine registry may change between two states: it only
   * grows, identities and parents never change, and a FINISHED record is
   * frozen (so RUNNING -> FINISHED is the only status change).
   */
  ghost predicate Evolves(before: seq<CoRecord>, after: seq<CoRecord>)
  {
    && |before| <= |after|
    && forall i | 0 <= i < |before| ::
         && after[i].cid == before[i].cid
         && after[i].tid == before[i].tid
         && after[i].parent == before[i].parent
         && (before[i].status == FINISHED ==> after[i] == before[i])
  }

  lemma EvolvesTransitive(a: seq<CoRecord>, b: seq<CoRecord>, c: seq<CoRecord>)
    requires Evolves(a, b) && Evolves(b, c)
    ensures Evolves(a, c)
  {
  }

  function MetaTid(m: CoMeta): int
  {
    m.tid
  }

  /** _co_getmeta: the first metadata record of thread `tid`, if any. */
  function FindMeta(ms: seq<CoMeta>, tid: int): (r: Option<nat>)
    ensures r.Some? ==> r.value < |ms| && ms[r.value].tid == tid
    ensures r.Some? ==> forall j | 0 <= j < r.value :: ms[j].tid != tid
    ensures r.None? <==> forall j | 0 <= j < |ms| :: ms[j].tid != tid
  {
    FirstWithKey(ms, MetaTid, tid)
  }

  /** The coroutine running on thread `tid` (None: main flow or no metadata). */
  function RunningOf(ms: seq<CoMeta>, tid: int): Option<nat>
  {
    match FindMeta(ms, tid)
    case None => None
    case Some(k) => ms[k].running
  }

  /** A coroutine co_yield may resume on thread `tid`. */
  predicate Eligible(c: CoRecord, tid: int)
  {
    c.tid == tid && c.status == RUNNING
  }

  /** The lowest eligible id at or above `from`: the scan of co_yield. */
  function NextCandidate(cs: seq<CoRecord>, tid: int, from: nat): (r: Option<nat>)
    decreases |cs| - from
    ensures r.Some? ==> from <= r.value < |cs| && Eligible(cs[r.value], tid)
    ensures r.Some? ==> forall j | from <= j < r.value :: !Eligible(cs[j], tid)
    ensures r.None? <==> forall j | from <= j < |cs| :: !Eligible(cs[j], tid)
  {
    if from >= |cs| then None
    else if Eligible(cs[from], tid) then Some(from)
    else NextCandidate(cs, tid, from + 1)
  }

  /** Where co_yield starts scanning: after the running coroutine, or at 0 from main. */
  function ScanStart(running: Option<nat>): nat
  {
    match running
    case None => 0
    case Some(c) => c + 1
  }

  /** c itself or one of its ancestors, following parent links, is `a`. */
  ghost predicate IsAncestorOrSelf(cs: seq<CoRecord>, a: nat, c: nat)
    requires ParentsBelow(cs) && c < |cs|
    decreases c
  {
    c == a || (cs[c].parent.Some? && IsAncestorOrSelf(cs, a, cs[c].parent.value))
  }

  /**
   * The authorisation rule of co_status: a valid id of the caller's own
   * thread, a caller with metadata, and a caller in main or in the queried
   * coroutine or one of its ancestors.
   */
  ghost predicate Authorized(cs: seq<CoRecord>, ms: seq<CoMeta>, tid: int, cid: int)
    requires ParentsBelow(cs)
  {
    && 0 <= cid < |cs|
    && cs[cid].tid == tid
    && FindMeta(ms, tid).Some?
    && match RunningOf(ms, tid)
       case None => true
       case Some(a) => IsAncestorOrSelf(cs, a, cid)
  }

  /** The bounds test of co_status as written (coroutine.c:333). */
  predicate StatusGuardAsWritten(cid: int, len: nat)
  {
    !(cid < 0 || cid > len)
  }

  /** The as-written test lets through cid == len, one past the last record. */
  lemma StatusGuardAdmitsLen(len: nat)
    ensures StatusGuardAsWritten(len, len)
    ensures !(len < len)
  {
  }

  /** The corrected bounds test: exactly the ids of registered coroutines. */
  predicate StatusGuard(cid: int, len: nat)
  {
    !(cid < 0 || cid >= len)
  }

  lemma StatusGuardExact(cid: int, len: nat)
    ensures StatusGuard(cid, len) <==> 0 <= cid < len
    ensures StatusGuard(cid, len) ==> StatusGuardAsWritten(cid, len)
  {
  }

  class Scheduler {
    const cinfo: CoArray<CoRecord>
    const tinfo: CoArray<CoMeta>

    ghost predicate Valid()
      reads this, cinfo, tinfo, cinfo.data, tinfo.data
    {
      && cinfo.Valid() && tinfo.Valid()
      && {cinfo as object, cinfo.data} !! {tinfo as object, tinfo.data}
      && WellFormed(cinfo.Elements(), tinfo.Elements())
    }

    /** The coroutine registry `cinfo`, indexed by id. */
    function Coroutines(): seq<CoRecord>
      reads this, cinfo, cinfo.data
      requires cinfo.Valid()
    {
      cinfo.Elements()
    }

    /** The thread registry `tinfo`. */
    function Metas(): seq<CoMeta>
      reads this, tinfo, tinfo.data
      requires tinfo.Valid()
    {
      tinfo.Elements()
    }

    /** The creation half of co_scheduler_init: both registries empty. */
    constructor ()
      ensures Valid() && fresh(cinfo) && fresh(tinfo) && fresh(cinfo.data) && fresh(tinfo.data)
      ensures Coroutines() == [] && Metas() == []
    {
      tinfo := new CoArray<CoMeta>();
      cinfo := new CoArray<CoRecord>();
    }

    /** _co_getmeta: the scan of the thread registry for `tid`. */
    method GetMeta(tid: int) returns (r: Option<nat>)
      requires Valid()
      ensures r == FindMeta(Metas(), tid)
      ensures r.Some? ==> r.value < |Metas()| && Metas()[r.value].tid == tid
    {
      r := None;
      var i := 0;
      while i < tinfo.len
        invariant 0 <= i <= tinfo.len
        invariant forall j | 0 <= j < i :: Metas()[j].tid != tid
      {
        if tinfo.Get(i).tid == tid {
          r := Some(i);
          return;
        }
        i := i + 1;
      }
    }

    /**
     * co_getid: the running coroutine's id, or -1 in main.  The source
     * dereferences the metadata pointer without a NULL check, so a thread
     * that never started a coroutine may not call it.
     */
    method GetId(tid: int) returns (id: int)
      requires Valid()
      requires FindMeta(Metas(), tid).Some?
      ensures id == -1 <==> RunningOf(Metas(), tid).None?
      ensures id != -1 ==> 0 <= id < |Coroutines()| && Coroutines()[id].tid == tid
      ensures id != -1 ==> RunningOf(Metas(), tid) == Some(id as nat)
    {
      var k := GetMeta(tid);
      var running := tinfo.Get(k.value).running;
      if running.None? {
        id := -1;
      } else {
        id := cinfo.Get(running.value).cid;
      }
    }

    /** The metadata lookup of co_start, creating the thread's record (in main) if absent. */
    method EnsureMeta(tid: int) returns (k: nat)
      requires Valid()
      modifies tinfo, tinfo.data
      ensures Valid()
      ensures tinfo.data == old(tinfo.data) || fresh(tinfo.data)
      ensures Coroutines() == old(Coroutines())
      ensures Metas() == if old(FindMeta(Metas(), tid)).Some? then old(Metas())
                         else old(Metas()) + [CoMeta(tid, None)]
      ensures FindMeta(Metas(), tid) == Some(k)
      ensures Metas()[k].running == old(RunningOf(Metas(), tid))
    {
      ghost var cs, ms := Coroutines(), Metas();
      var found := GetMeta(tid);
      if found.Some? {
        k := found.value;
      } else {
        NewMetaWellFormed(cs, ms, tid);
        tinfo.Add(CoMeta(tid, None));
        k := tinfo.len - 1;
        assert Metas() == ms + [CoMeta(tid, None)] && k == |ms|;
      }
    }

    /**
     * co_start's bookkeeping.  The new record gets id = registry length,
     * status RUNNING, ret -1 and as parent whatever runs on the thread
     * (creating the thread's metadata first if absent); then it becomes
     * the running coroutine.  `contextFails` stands for getcontext or
     * swapcontext failing, after which co_start returns -1 with the
     * bookkeeping already done.
     */
    method Start(tid: int, contextFails: bool) returns (r: int)
      requires Valid()
      modifies cinfo, cinfo.data, tinfo, tinfo.data
      ensures Valid()
      ensures cinfo.data == old(cinfo.data) || fresh(cinfo.data)
      ensures tinfo.data == old(tinfo.data) || fresh(tinfo.data)
      ensures r == if contextFails then -1 else old(|Coroutines()|)
      ensures Coroutines() == StartRecords(old(Coroutines()), old(Metas()), tid)
      ensures Metas() == StartMetas(old(Metas()), tid, old(|Coroutines()|))
      ensures RunningOf(Metas(), tid) == Some(old(|Coroutines()|))
      ensures Evolves(old(Coroutines()), Coroutines())
    {
      ghost var cs0, ms0 := Coroutines(), Metas();
      var k := EnsureMeta(tid);
      ghost var ms1 := Metas();
      StartAfterEnsure(ms0, ms1, tid, k, |cs0|);
      var cid := Register(tid, k);
      r := if contextFails then -1 else cid;
    }

    /**
     * The registration half of co_start, once the thread's metadata record
     * is at k: append the new RUNNING record, parented by what runs on the
     * thread, and make it the running coroutine.
     */
    method Register(tid: int, k: nat) returns (cid: nat)
      requires Valid() && FindMeta(Metas(), tid) == Some(k)
      modifies cinfo, cinfo.data, tinfo.data
      ensures Valid()
      ensures cinfo.data == old(cinfo.data) || fresh(cinfo.data)
      ensures cid == old(|Coroutines()|)
      ensures Coroutines() == StartRecords(old(Coroutines()), old(Metas()), tid)
      ensures Metas() == old(Metas())[k := CoMeta(tid, Some(cid))]
      ensures RunningOf(Metas(), tid) == Some(cid)
      ensures Evolves(old(Coroutines()), Coroutines())
    {
      StartWellFormed(Coroutines(), Metas(), tid);
      var meta := tinfo.Get(k);
      cid := cinfo.len;
      cinfo.Add(CoRecord(cid, tid, meta.running, RUNNING, -1));
      tinfo.Put(k, meta.(running := Some(cid)));
    }

    /**
     * The finish step of _co_func_wrapper: the running coroutine's body has
     * returned `ret`; it becomes FINISHED with that value and the thread's
     * running slot goes back to its parent (the uc_link fixed at start).
     */
    method Finish(tid: int, ret: int)
      requires Valid()
      requires CanFinish(Coroutines(), Metas(), tid)
      modifies cinfo.data, tinfo.data
      ensures Valid()
      ensures Coroutines() == FinishRecords(old(Coroutines()), old(Metas()), tid, ret)
      ensures Metas() == FinishMetas(old(Coroutines()), old(Metas()), tid)
      ensures RunningOf(Metas(), tid) == old(Coroutines())[old(RunningOf(Metas(), tid)).value].parent
      ensures Evolves(old(Coroutines()), Coroutines())
    {
      var k := GetMeta(tid);
      var c := tinfo.Get(k.value).running.value;
      var coro := cinfo.Get(c);
      FinishWellFormed(Coroutines(), Metas(), tid, ret);
      cinfo.Put(c, coro.(status := FINISHED, ret := ret));
      tinfo.Put(k.value, CoMeta(tid, coro.parent));
    }

    /** The candidate loop of co_yield: the first RUNNING coroutine of `tid` from id `from` on. */
    method Scan(tid: int, from: nat) returns (next: Option<nat>)
      requires Valid()
      ensures next == NextCandidate(Coroutines(), tid, from)
    {
      ghost var cs := Coroutines();
      var n := cinfo.len;
      next := None;
      var i := from;
      while i < n
        invariant from <= i && n == |cs|
        invariant NextCandidate(cs, tid, from) == NextCandidate(cs, tid, i)
        decreases n - i
      {
        var candidate := cinfo.Get(i);
        assert candidate == cs[i];
        if candidate.tid == tid && candidate.status == RUNNING {
          next := Some(i);
          return;
        }
        i := i + 1;
      }
    }

    /**
     * co_yield's choice.  The scan starts after the running coroutine (at 0
     * from main) and takes the first coroutine of the caller's thread that
     * is RUNNING; without one the thread returns to main.  `switched` is
     * false exactly when main yields to main, the case in which no
     * swapcontext is made; `switchFails` stands for swapcontext failing.
     */
    method Yield(tid: int, switchFails: bool) returns (r: int, switched: bool)
      requires Valid()
      requires FindMeta(Metas(), tid).Some?
      modifies tinfo.data
      ensures Valid()
      ensures Coroutines() == old(Coroutines())
      ensures Metas() == YieldMetas(old(Coroutines()), old(Metas()), tid)
      ensures RunningOf(Metas(), tid) == YieldTarget(old(Coroutines()), old(Metas()), tid)
      ensures switched <==> !(old(RunningOf(Metas(), tid)).None? && RunningOf(Metas(), tid).None?)
      ensures r == if switched && switchFails then -1 else 0
    {
      ghost var cs, ms := Coroutines(), Metas();
      var k := GetMeta(tid);
      var running := tinfo.Get(k.value).running;
      assert running == RunningOf(ms, tid);
      var lower := if running.Some? then cinfo.Get(running.value).cid + 1 else 0;
      assert lower == ScanStart(running);
      var next := Scan(tid, lower);
      assert next == YieldTarget(cs, ms, tid);
      YieldWellFormed(cs, ms, tid);
      tinfo.Put(k.value, CoMeta(tid, next));
      assert Metas() == YieldMetas(cs, ms, tid);
      switched := !(running.None? && next.None?);
      r := if switched && switchFails then -1 else 0;
    }

    /**
     * co_status with the corrected bounds test (StatusGuard): the status of
     * `cid` when the caller is authorised, UNAUTHORIZED otherwise.
     */
    method Status(tid: int, cid: int) returns (st: int)
      requires Valid()
      ensures st == if Authorized(Coroutines(), Metas(), tid, cid) then Coroutines()[cid].status
                    else UNAUTHORIZED
    {
      var k := GetMeta(tid);
      if !StatusGuard(cid, cinfo.len) {
        return UNAUTHORIZED;
      }
      var queried := cinfo.Get(cid);
      if queried.tid == tid && k.Some? {
        var running := tinfo.Get(k.value).running;
        if running.None? {
          return queried.status;
        }
        var cur: Option<nat> := Some(cid);
        while cur.Some?
          invariant cur.Some? ==> cur.value < |Coroutines()|
          invariant IsAncestorOrSelf(Coroutines(), running.value, cid) <==>
                      (cur.Some? && IsAncestorOrSelf(Coroutines(), running.value, cur.value))
          decreases if cur.Some? then cur.value + 1 else 0
        {
          if cur == running {
            return queried.status;
          }
          cur := cinfo.Get(cur.value).parent;
        }
      }
      st := UNAUTHORIZED;
    }

    /**
     * One test of co_getret's loop: whether `cid` has finished and, if so,
     * its return value.  The source indexes the registry without a bounds
     * check, so the id must be valid.
     */
    method PollReturn(cid: int) returns (finished: bool, ret: int)
      requires Valid()
      requires 0 <= cid < |Coroutines()|
      ensures finished <==> Coroutines()[cid].status == FINISHED
      ensures finished ==> ret == Coroutines()[cid].ret
    {
      var coro := cinfo.Get(cid);
      finished := coro.status == FINISHED;
      ret := coro.ret;
    }

    /** One test of co_wait's loop; like co_getret it indexes unchecked. */
    method PollWait(cid: int) returns (finished: bool)
      requires Valid()
      requires 0 <= cid < |Coroutines()|
      ensures finished <==> Coroutines()[cid].status == FINISHED
    {
      finished := cinfo.Get(cid).status == FINISHED;
    }

    /** One scan of co_waitall: every registered coroutine, of any thread, is FINISHED. */
    method AllFinished() returns (all: bool)
      requires Valid()
      ensures all <==> forall i | 0 <= i < |Coroutines()| :: Coroutines()[i].status == FINISHED
    {
      all := true;
      var i := 0;
      while i < cinfo.len
        invariant 0 <= i <= cinfo.len
        invariant forall j | 0 <= j < i :: Coroutines()[j].status == FINISHED
      {
        if cinfo.Get(i).status != FINISHED {
          assert Coroutines()[i].status != FINISHED;
          all := false;
          break;
        }
        i := i + 1;
      }
    }
  }

  /** The coroutine registry after co_start: a RUNNING record whose parent is the running coroutine. */
  function StartRecords(cs: seq<CoRecord>, ms: seq<CoMeta>, tid: int): seq<CoRecord>
  {
    cs + [CoRecord(|cs|, tid, RunningOf(ms, tid), RUNNING, -1)]
  }

  /** The thread registry after co_start: the thread's record (new if absent) now runs `n`. */
  function StartMetas(ms: seq<CoMeta>, tid: int, n: nat): seq<CoMeta>
  {
    match FindMeta(ms, tid)
    case Some(k) => ms[k := CoMeta(tid, Some(n))]
    case None => ms + [CoMeta(tid, Some(n))]
  }

  /** The wrapper's finish step may run: the thread runs a coroutine that is RUNNING. */
  predicate CanFinish(cs: seq<CoRecord>, ms: seq<CoMeta>, tid: int)
  {
    RunningOf(ms, tid).Some? && RunningOf(ms, tid).value < |cs| && cs[RunningOf(ms, tid).value].status == RUNNING
  }

  /** The coroutine registry after the wrapper's finish step: the running record is FINISHED with `ret`. */
  function FinishRecords(cs: seq<CoRecord>, ms: seq<CoMeta>, tid: int, ret: int): seq<CoRecord>
    requires CanFinish(cs, ms, tid)
  {
    var c := RunningOf(ms, tid).value;
    cs[c := cs[c].(status := FINISHED, ret := ret)]
  }

  /** The thread registry after the wrapper's finish step: the thread runs the finished record's parent. */
  function FinishMetas(cs: seq<CoRecord>, ms: seq<CoMeta>, tid: int): seq<CoMeta>
    requires CanFinish(cs, ms, tid)
  {
    ms[FindMeta(ms, tid).value := CoMeta(tid, cs[RunningOf(ms, tid).value].parent)]
  }

  /** The coroutine co_yield resumes on `tid` (None: the thread's main flow). */
  function YieldTarget(cs: seq<CoRecord>, ms: seq<CoMeta>, tid: int): Option<nat>
  {
    NextCandidate(cs, tid, ScanStart(RunningOf(ms, tid)))
  }

  /** The thread registry after co_yield: the thread runs the yield target. */
  function YieldMetas(cs: seq<CoRecord>, ms: seq<CoMeta>, tid: int): seq<CoMeta>
    requires FindMeta(ms, tid).Some?
  {
    ms[FindMeta(ms, tid).value := CoMeta(tid, YieldTarget(cs, ms, tid))]
  }

  /**
   * After the metadata lookup of co_start (ms1, the record at k), pointing
   * that record at the new id n is StartMetas, and the thread still runs
   * what it ran before.
   */
  lemma StartAfterEnsure(ms0: seq<CoMeta>, ms1: seq<CoMeta>, tid: int, k: nat, n: nat)
    requires ms1 == if FindMeta(ms0, tid).Some? then ms0 else ms0 + [CoMeta(tid, None)]
    requires FindMeta(ms1, tid) == Some(k)
    ensures ms1[k := CoMeta(tid, Some(n))] == StartMetas(ms0, tid, n)
    ensures RunningOf(ms1, tid) == RunningOf(ms0, tid)
  {
    if FindMeta(ms0, tid).None? {
      assert k == |ms0|;
      assert ms1[k := CoMeta(tid, Some(n))] == ms0 + [CoMeta(tid, Some(n))];
    }
  }

  /** Rewriting a thread's own record leaves every other thread's running coroutine as it was. */
  lemma {:induction false} OtherThreadsUntouched(ms: seq<CoMeta>, k: nat, m: CoMeta, other: int)
    requires k < |ms| && ms[k].tid == m.tid && other != m.tid
    ensures FindMeta(ms[k := m], other) == FindMeta(ms, other)
    ensures RunningOf(ms[k := m], other) == RunningOf(ms, other)
  {
    if k > 0 {
      assert ms[k := m][1..] == ms[1..][k - 1 := m];
      OtherThreadsUntouched(ms[1..], k - 1, m, other);
    }
  }

  /** Appending a record for a new thread leaves every other thread's running coroutine as it was. */
  lemma {:induction false} OtherThreadsUntouchedByAppend(ms: seq<CoMeta>, m: CoMeta, other: int)
    requires other != m.tid
    ensures FindMeta(ms + [m], other) == FindMeta(ms, other)
    ensures RunningOf(ms + [m], other) == RunningOf(ms, other)
  {
    if |ms| > 0 {
      assert (ms + [m])[1..] == ms[1..] + [m];
      OtherThreadsUntouchedByAppend(ms[1..], m, other);
    }
  }

  /** co_start keeps the invariant, makes the new coroutine current and touches no other thread. */
  lemma StartWellFormed(cs: seq<CoRecord>, ms: seq<CoMeta>, tid: int)
    requires WellFormed(cs, ms)
    ensures WellFormed(StartRecords(cs, ms, tid), StartMetas(ms, tid, |cs|))
    ensures Evolves(cs, StartRecords(cs, ms, tid))
    ensures RunningOf(StartMetas(ms, tid, |cs|), tid) == Some(|cs|)
    ensures FindMeta(StartMetas(ms, tid, |cs|), tid).Some?
    ensures forall other | other != tid :: RunningOf(StartMetas(ms, tid, |cs|), other) == RunningOf(ms, other)
  {
    StartRecordsOk(cs, ms, tid);
    StartThreadsOk(cs, ms, tid);
    StartOtherThreads(ms, tid, |cs|);
  }

  /** The record co_start appends keeps the record invariant and changes no earlier record. */
  lemma StartRecordsOk(cs: seq<CoRecord>, ms: seq<CoMeta>, tid: int)
    requires WellFormed(cs, ms)
    ensures RecordsOk(StartRecords(cs, ms, tid))
    ensures Evolves(cs, StartRecords(cs, ms, tid))
  {
    var cs' := StartRecords(cs, ms, tid);
    match FindMeta(ms, tid)
    case None =>
    case Some(k) =>
      assert ms[k].running.Some? ==> ms[k].running.value < |cs| && cs[ms[k].running.value].tid == tid;
    assert forall i | 0 <= i < |cs| :: cs'[i] == cs[i];
  }

  /** After co_start the thread has its record, which runs the new coroutine, and ThreadsOk holds. */
  lemma StartThreadsOk(cs: seq<CoRecord>, ms: seq<CoMeta>, tid: int)
    requires WellFormed(cs, ms)
    ensures ThreadsOk(StartRecords(cs, ms, tid), StartMetas(ms, tid, |cs|))
    ensures RunningOf(StartMetas(ms, tid, |cs|), tid) == Some(|cs|)
    ensures FindMeta(StartMetas(ms, tid, |cs|), tid).Some?
  {
    var cs' := StartRecords(cs, ms, tid);
    var ms' := StartMetas(ms, tid, |cs|);
    StartTidsUnique(ms, tid, |cs|);
    assert forall i | 0 <= i < |cs| :: cs'[i] == cs[i];
    match FindMeta(ms, tid)
    case Some(k) =>
      FindMetaAt(ms', tid, k);
    case None =>
      FindMetaAt(ms', tid, |ms|);
  }

  /** co_start keeps one metadata record per thread. */
  lemma StartTidsUnique(ms: seq<CoMeta>, tid: int, n: nat)
    requires forall i, j | 0 <= i < j < |ms| :: ms[i].tid != ms[j].tid
    ensures var ms' := StartMetas(ms, tid, n);
            forall i, j | 0 <= i < j < |ms'| :: ms'[i].tid != ms'[j].tid
  {
    var ms' := StartMetas(ms, tid, n);
    assert forall i | 0 <= i < |ms| :: ms'[i].tid == ms[i].tid;
  }

  /** co_start touches no other thread's running coroutine. */
  lemma StartOtherThreads(ms: seq<CoMeta>, tid: int, n: nat)
    ensures forall other | other != tid :: RunningOf(StartMetas(ms, tid, n), other) == RunningOf(ms, other)
  {
    var ms' := StartMetas(ms, tid, n);
    match FindMeta(ms, tid)
    case Some(k) =>
      forall other | other != tid
        ensures RunningOf(ms', other) == RunningOf(ms, other)
      {
        OtherThreadsUntouched(ms, k, CoMeta(tid, Some(n)), other);
      }
    case None =>
      forall other | other != tid
        ensures RunningOf(ms', other) == RunningOf(ms, other)
      {
        OtherThreadsUntouchedByAppend(ms, CoMeta(tid, Some(n)), other);
      }
  }

  /** Pointing a thread's running slot at one of its own coroutines (or main) keeps the invariant. */
  lemma SwitchWellFormed(cs: seq<CoRecord>, ms: seq<CoMeta>, k: nat, next: Option<nat>)
    requires WellFormed(cs, ms) && k < |ms|
    requires next.Some? ==> next.value < |cs| && cs[next.value].tid == ms[k].tid
    ensures WellFormed(cs, ms[k := CoMeta(ms[k].tid, next)])
    ensures RunningOf(ms[k := CoMeta(ms[k].tid, next)], ms[k].tid) == next
    ensures FindMeta(ms, ms[k].tid) == Some(k)
    ensures FindMeta(ms[k := CoMeta(ms[k].tid, next)], ms[k].tid) == Some(k)
    ensures forall other | other != ms[k].tid ::
              RunningOf(ms[k := CoMeta(ms[k].tid, next)], other) == RunningOf(ms, other)
  {
    var m := CoMeta(ms[k].tid, next);
    FindMetaAt(ms, ms[k].tid, k);
    FindMetaAt(ms[k := m], ms[k].tid, k);
    forall other | other != ms[k].tid
      ensures RunningOf(ms[k := m], other) == RunningOf(ms, other)
    {
      OtherThreadsUntouched(ms, k, m, other);
    }
  }

  /**
   * co_yield keeps the invariant, resumes a RUNNING coroutine of the
   * caller's own thread (or main) and touches no other thread.
   */
  lemma YieldWellFormed(cs: seq<CoRecord>, ms: seq<CoMeta>, tid: int)
    requires WellFormed(cs, ms) && FindMeta(ms, tid).Some?
    ensures WellFormed(cs, YieldMetas(cs, ms, tid))
    ensures RunningOf(YieldMetas(cs, ms, tid), tid) == YieldTarget(cs, ms, tid)
    ensures FindMeta(YieldMetas(cs, ms, tid), tid) == FindMeta(ms, tid)
    ensures YieldTarget(cs, ms, tid).Some? ==> Eligible(cs[YieldTarget(cs, ms, tid).value], tid)
    ensures forall other | other != tid :: RunningOf(YieldMetas(cs, ms, tid), other) == RunningOf(ms, other)
  {
    SwitchWellFormed(cs, ms, FindMeta(ms, tid).value, YieldTarget(cs, ms, tid));
  }

  /**
   * The finish step keeps the invariant: the record freezes as FINISHED,
   * the thread returns to the parent, and no other thread is touched.
   */
  lemma FinishWellFormed(cs: seq<CoRecord>, ms: seq<CoMeta>, tid: int, ret: int)
    requires WellFormed(cs, ms) && CanFinish(cs, ms, tid)
    ensures WellFormed(FinishRecords(cs, ms, tid, ret), FinishMetas(cs, ms, tid))
    ensures Evolves(cs, FinishRecords(cs, ms, tid, ret))
    ensures RunningOf(FinishMetas(cs, ms, tid), tid) == cs[RunningOf(ms, tid).value].parent
    ensures FindMeta(FinishMetas(cs, ms, tid), tid) == FindMeta(ms, tid)
    ensures forall other | other != tid :: RunningOf(FinishMetas(cs, ms, tid), other) == RunningOf(ms, other)
  {
    var k := FindMeta(ms, tid).value;
    var c := RunningOf(ms, tid).value;
    SwitchWellFormed(cs, ms, k, cs[c].parent);
    var cs' := FinishRecords(cs, ms, tid, ret);
    assert forall k' | 0 <= k' < |ms| && ms[k'].running.Some? :: cs'[ms[k'].running.value].tid == cs[ms[k'].running.value].tid;
  }

  /** With unique thread ids, the record at k is the one FindMeta finds. */
  lemma FindMetaAt(ms: seq<CoMeta>, tid: int, k: nat)
    requires forall i, j | 0 <= i < j < |ms| :: ms[i].tid != ms[j].tid
    requires k < |ms| && ms[k].tid == tid
    ensures FindMeta(ms, tid) == Some(k)
  {
  }

  /** Metadata for a thread without any, appended, keeps the invariant and is the thread's record. */
  lemma NewMetaWellFormed(cs: seq<CoRecord>, ms: seq<CoMeta>, tid: int)
    requires WellFormed(cs, ms) && FindMeta(ms, tid).None?
    ensures WellFormed(cs, ms + [CoMeta(tid, None)])
    ensures FindMeta(ms + [CoMeta(tid, None)], tid) == Some(|ms|)
  {
    var ms' := ms + [CoMeta(tid, None)];
    assert forall i | 0 <= i < |ms| :: ms'[i] == ms[i];
    FindMetaAt(ms', tid, |ms|);
  }

  /** Following parent links only reaches smaller ids. */
  lemma {:induction false} AncestorIdsBelow(cs: seq<CoRecord>, a: nat, c: nat)
    requires ParentsBelow(cs) && c < |cs|
    requires IsAncestorOrSelf(cs, a, c)
    ensures a <= c
  {
    if c != a {
      AncestorIdsBelow(cs, a, cs[c].parent.value);
    }
  }

  /** Ancestors share the thread of their descendants. */
  lemma {:induction false} AncestorSameThread(cs: seq<CoRecord>, a: nat, c: nat)
    requires ParentsBelow(cs) && c < |cs|
    requires IsAncestorOrSelf(cs, a, c)
    ensures a < |cs| && cs[a].tid == cs[c].tid
  {
    if c != a {
      AncestorSameThread(cs, a, cs[c].parent.value);
    }
  }

  /** The ancestor relation is transitive. */
  lemma {:induction false} AncestorTransitive(cs: seq<CoRecord>, a: nat, b: nat, c: nat)
    requires ParentsBelow(cs) && b < |cs| && c < |cs|
    requires IsAncestorOrSelf(cs, a, b) && IsAncestorOrSelf(cs, b, c)
    ensures IsAncestorOrSelf(cs, a, c)
  {
    if c != b {
      AncestorTransitive(cs, a, b, cs[c].parent.value);
    }
  }

  /** From main, status is always granted for a coroutine of the caller's thread. */
  lemma MainAlwaysAuthorized(cs: seq<CoRecord>, ms: seq<CoMeta>, tid: int, cid: int)
    requires WellFormed(cs, ms)
    requires 0 <= cid < |cs| && cs[cid].tid == tid
    requires FindMeta(ms, tid).Some? && RunningOf(ms, tid).None?
    ensures Authorized(cs, ms, tid, cid)
  {
  }

  /** A coroutine may query itself, its children and every later descendant. */
  lemma {:induction false} DescendantAuthorized(cs: seq<CoRecord>, ms: seq<CoMeta>, tid: int, cid: nat)
    requires WellFormed(cs, ms)
    requires cid < |cs| && cs[cid].tid == tid
    requires RunningOf(ms, tid).Some?
    requires IsAncestorOrSelf(cs, RunningOf(ms, tid).value, cid)
    ensures Authorized(cs, ms, tid, cid)
  {
  }

  /**
   * A coroutine created after the running one can never be its ancestor,
   * so querying it from a coroutine with a larger id is refused.
   */
  lemma UnrelatedUnauthorized(cs: seq<CoRecord>, ms: seq<CoMeta>, tid: int, cid: nat)
    requires WellFormed(cs, ms)
    requires cid < |cs|
    requires RunningOf(ms, tid).Some? && RunningOf(ms, tid).value > cid
    ensures !Authorized(cs, ms, tid, cid)
  {
    if Authorized(cs, ms, tid, cid) {
      AncestorIdsBelow(cs, RunningOf(ms, tid).value, cid);
    }
  }

  /** Coroutines of another thread, or an id outside the registry, are never visible. */
  lemma ForeignUnauthorized(cs: seq<CoRecord>, ms: seq<CoMeta>, tid: int, cid: int)
    requires WellFormed(cs, ms)
    requires !(0 <= cid < |cs|) || cs[cid].tid != tid
    ensures !Authorized(cs, ms, tid, cid)
  {
  }

  /**
   * The forward-only scan on three RUNNING coroutines of one thread: from 1
   * it resumes 2, not 0; from 2 it falls back to main although 0 is still
   * RUNNING; from main it resumes 0.
   */
  lemma ForwardScanExample(t: int)
    ensures var cs := [CoRecord(0, t, None, RUNNING, -1),
                       CoRecord(1, t, None, RUNNING, -1),
                       CoRecord(2, t, None, RUNNING, -1)];
            && NextCandidate(cs, t, ScanStart(Some(1))) == Some(2)
            && NextCandidate(cs, t, ScanStart(Some(2))) == None
            && NextCandidate(cs, t, ScanStart(None)) == Some(0)
  {
  }

  /** Both registries together: the state the scheduler's operations act on. */
  datatype Registry = Registry(cs: seq<CoRecord>, ms: seq<CoMeta>)

  /** A call into the scheduler from thread `tid`. */
  datatype Op = StartOp(tid: int) | YieldOp(tid: int) | FinishOp(tid: int, ret: int)

  /**
   * One operation on the registries, None when the source would
   * dereference a missing metadata record (co_yield) or no coroutine
   * body can be returning (the wrapper's finish step).
   */
  function Step(r: Registry, op: Op): Option<Registry>
  {
    match op
    case StartOp(tid) => Some(Registry(StartRecords(r.cs, r.ms, tid), StartMetas(r.ms, tid, |r.cs|)))
    case YieldOp(tid) =>
      if FindMeta(r.ms, tid).Some? then Some(Registry(r.cs, YieldMetas(r.cs, r.ms, tid))) else None
    case FinishOp(tid, ret) =>
      if CanFinish(r.cs, r.ms, tid)
      then Some(Registry(FinishRecords(r.cs, r.ms, tid, ret), FinishMetas(r.cs, r.ms, tid)))
      else None
  }

  /** A sequence of operations applied in order, None once one of them cannot run. */
  function Run(r: Registry, ops: seq<Op>): Option<Registry>
    decreases |ops|
  {
    if ops == [] then Some(r)
    else match Step(r, ops[0])
      case None => None
      case Some(r') => Run(r', ops[1..])
  }

  /** Every run from a well-formed state stays well-formed, and the coroutine registry only evolves. */
  lemma {:induction false} RunWellFormed(r: Registry, ops: seq<Op>)
    requires WellFormed(r.cs, r.ms)
    requires Run(r, ops).Some?
    ensures WellFormed(Run(r, ops).value.cs, Run(r, ops).value.ms)
    ensures Evolves(r.cs, Run(r, ops).value.cs)
    decreases |ops|
  {
    if ops != [] {
      var r' := Step(r, ops[0]).value;
      match ops[0] {
        case StartOp(tid) => StartWellFormed(r.cs, r.ms, tid);
        case YieldOp(tid) => YieldWellFormed(r.cs, r.ms, tid);
        case FinishOp(tid, ret) => FinishWellFormed(r.cs, r.ms, tid, ret);
      }
      RunWellFormed(r', ops[1..]);
      EvolvesTransitive(r.cs, r'.cs, Run(r', ops[1..]).value.cs);
    }
  }

  /** Running one operation after a run is the run of the longer sequence. */
  lemma {:induction false} RunSnoc(r: Registry, ops: seq<Op>, op: Op)
    requires Run(r, ops).Some?
    ensures Run(r, ops + [op]) == Step(Run(r, ops).value, op)
    decreases |ops|
  {
    if ops == [] {
      assert [] + [op] == [op];
    } else {
      assert (ops + [op])[0] == ops[0];
      assert (ops + [op])[1..] == ops[1..] + [op];
      RunSnoc(Step(r, ops[0]).value, ops[1..], op);
    }
  }

  /** On a single thread's registry, that thread's record is the first one. */
  lemma SingleThread(t: int, running: Option<nat>)
    ensures FindMeta([CoMeta(t, running)], t) == Some(0)
    ensures RunningOf([CoMeta(t, running)], t) == running
  {
  }

  /** The empty registries co_scheduler_init creates. */
  const Empty: Registry := Registry([], [])

  /**
   * A thread spawns A (id 0), A spawns B (id 1), B returns 42 and A
   * returns 7: both finish with their values and the thread is back in main.
   */
  lemma NestedStartScenario(t: int)
    ensures Run(Empty, [StartOp(t), StartOp(t), FinishOp(t, 42), FinishOp(t, 7)])
         == Some(Registry([CoRecord(0, t, None, FINISHED, 7), CoRecord(1, t, Some(0), FINISHED, 42)],
                          [CoMeta(t, None)]))
  {
    var a := CoRecord(0, t, None, RUNNING, -1);
    var b := CoRecord(1, t, Some(0), RUNNING, -1);
    var b' := b.(status := FINISHED, ret := 42);
    var r1 := Registry([a], [CoMeta(t, Some(0))]);
    var r2 := Registry([a, b], [CoMeta(t, Some(1))]);
    var r3 := Registry([a, b'], [CoMeta(t, Some(0))]);
    var r4 := Registry([a.(status := FINISHED, ret := 7), b'], [CoMeta(t, None)]);
    assert StartRecords([], [], t) == [a];
    assert StartMetas([], t, 0) == [CoMeta(t, Some(0))];
    SingleThread(t, Some(0));
    assert StartRecords(r1.cs, r1.ms, t) == [a, b];
    assert StartMetas(r1.ms, t, 1) == r2.ms;
    SingleThread(t, Some(1));
    assert FinishRecords(r2.cs, r2.ms, t, 42) == r3.cs;
    assert FinishMetas(r2.cs, r2.ms, t) == r3.ms;
    SingleThread(t, Some(0));
    assert FinishRecords(r3.cs, r3.ms, t, 7) == r4.cs;
    assert FinishMetas(r3.cs, r3.ms, t) == r4.ms;
    RunSnoc(Empty, [], StartOp(t));
    RunSnoc(Empty, [StartOp(t)], StartOp(t));
    RunSnoc(Empty, [StartOp(t), StartOp(t)], FinishOp(t, 42));
    RunSnoc(Empty, [StartOp(t), StartOp(t), FinishOp(t, 42)], FinishOp(t, 7));
    assert [StartOp(t), StartOp(t), FinishOp(t, 42)] + [FinishOp(t, 7)]
        == [StartOp(t), StartOp(t), FinishOp(t, 42), FinishOp(t, 7)];
  }

  /** The seven steps of ParentFinishesFirstScenario, one state to the next. */
  lemma ParentFinishesFirstSteps(t: int)
    ensures var a := CoRecord(0, t, None, RUNNING, -1);
            var b := CoRecord(1, t, Some(0), RUNNING, -1);
            var a' := a.(status := FINISHED, ret := 7);
            && Step(Registry([a, b], [CoMeta(t, Some(1))]), YieldOp(t)) == Some(Registry([a, b], [CoMeta(t, None)]))
            && Step(Registry([a, b], [CoMeta(t, None)]), YieldOp(t)) == Some(Registry([a, b], [CoMeta(t, Some(0))]))
            && Step(Registry([a, b], [CoMeta(t, Some(0))]), FinishOp(t, 7)) == Some(Registry([a', b], [CoMeta(t, None)]))
            && Step(Registry([a', b], [CoMeta(t, None)]), YieldOp(t)) == Some(Registry([a', b], [CoMeta(t, Some(1))]))
            && Step(Registry([a', b], [CoMeta(t, Some(1))]), FinishOp(t, 42))
               == Some(Registry([a', b.(status := FINISHED, ret := 42)], [CoMeta(t, Some(0))]))
  {
    var a := CoRecord(0, t, None, RUNNING, -1);
    var b := CoRecord(1, t, Some(0), RUNNING, -1);
    var a' := a.(status := FINISHED, ret := 7);
    SingleThread(t, Some(1));
    assert YieldTarget([a, b], [CoMeta(t, Some(1))], t) == None;
    assert YieldMetas([a, b], [CoMeta(t, Some(1))], t) == [CoMeta(t, None)];
    SingleThread(t, None);
    assert YieldTarget([a, b], [CoMeta(t, None)], t) == Some(0);
    assert YieldMetas([a, b], [CoMeta(t, None)], t) == [CoMeta(t, Some(0))];
    SingleThread(t, Some(0));
    assert FinishRecords([a, b], [CoMeta(t, Some(0))], t, 7) == [a', b];
    assert FinishMetas([a, b], [CoMeta(t, Some(0))], t) == [CoMeta(t, None)];
    assert NextCandidate([a', b], t, 1) == Some(1);
    assert YieldTarget([a', b], [CoMeta(t, None)], t) == Some(1);
    assert YieldMetas([a', b], [CoMeta(t, None)], t) == [CoMeta(t, Some(1))];
    assert FinishRecords([a', b], [CoMeta(t, Some(1))], t, 42) == [a', b.(status := FINISHED, ret := 42)];
    assert FinishMetas([a', b], [CoMeta(t, Some(1))], t) == [CoMeta(t, Some(0))];
  }

  /** The two co_start calls of the scenarios: A in main, then B inside A. */
  lemma TwoStartsSteps(t: int)
    ensures var a := CoRecord(0, t, None, RUNNING, -1);
            var b := CoRecord(1, t, Some(0), RUNNING, -1);
            && Step(Empty, StartOp(t)) == Some(Registry([a], [CoMeta(t, Some(0))]))
            && Step(Registry([a], [CoMeta(t, Some(0))]), StartOp(t)) == Some(Registry([a, b], [CoMeta(t, Some(1))]))
  {
    var a := CoRecord(0, t, None, RUNNING, -1);
    var b := CoRecord(1, t, Some(0), RUNNING, -1);
    assert StartRecords([], [], t) == [a];
    assert StartMetas([], t, 0) == [CoMeta(t, Some(0))];
    SingleThread(t, Some(0));
    assert StartRecords([a], [CoMeta(t, Some(0))], t) == [a, b];
    assert StartMetas([CoMeta(t, Some(0))], t, 1) == [CoMeta(t, Some(1))];
  }

  /**
   * A parent can finish before its child: A (id 0) starts B (id 1); B
   * yields to main; main yields to A; A returns 7; main yields to B; B
   * returns 42.  The thread's running slot then names A, which is already
   * FINISHED (and whose stack the wrapper has freed): the uc_link fixed at
   * start resumes a context that no longer exists.
   */
  lemma ParentFinishesFirstScenario(t: int)
    ensures Run(Empty, [StartOp(t), StartOp(t), YieldOp(t), YieldOp(t), FinishOp(t, 7), YieldOp(t), FinishOp(t, 42)])
         == Some(Registry([CoRecord(0, t, None, FINISHED, 7), CoRecord(1, t, Some(0), FINISHED, 42)],
                          [CoMeta(t, Some(0))]))
  {
    TwoStartsSteps(t);
    ParentFinishesFirstSteps(t);
    var ops := [StartOp(t), StartOp(t), YieldOp(t), YieldOp(t), FinishOp(t, 7), YieldOp(t), FinishOp(t, 42)];
    RunSnoc(Empty, ops[..0], ops[0]);
    assert ops[..0] + [ops[0]] == ops[..1];
    RunSnoc(Empty, ops[..1], ops[1]);
    assert ops[..1] + [ops[1]] == ops[..2];
    RunSnoc(Empty, ops[..2], ops[2]);
    assert ops[..2] + [ops[2]] == ops[..3];
    RunSnoc(Empty, ops[..3], ops[3]);
    assert ops[..3] + [ops[3]] == ops[..4];
    RunSnoc(Empty, ops[..4], ops[4]);
    assert ops[..4] + [ops[4]] == ops[..5];
    RunSnoc(Empty, ops[..5], ops[5]);
    assert ops[..5] + [ops[5]] == ops[..6];
    RunSnoc(Empty, ops[..6], ops[6]);
    assert ops[..6] + [ops[6]] == ops[..7];
    assert ops[..7] == ops;
  }
}
