/**
 * The sleep registry of threads/Alarm.java.
 *
 * A sleeping thread is recorded by two parallel lists: its deadline in the
 * per-instance list `wakeTime` and its semaphore in the list `a`, which the
 * Java code declares `static` and so shares between all Alarm instances.
 * A semaphore is represented by an id; `V()` on it is represented by the id
 * appearing in the `fired` result of TimerInterrupt. Blocking (`P()`) and the
 * final `yield()` are not modelled.
 */
module Alarm {
  import opened JavaInt
  import opened Wrappers

  /** Identity of a `Semaphore` created by waitUntil. */
  type SemId = nat

  /** One registered sleeper: the deadline and the semaphore at the same index. */
  datatype Entry = Entry(deadline: int32, sem: SemId)

  /** Result of one timer interrupt, over the lists it started from. */
  datatype ScanResult = ScanResult(
    kept: seq<int32>,       // wakeTime afterwards
    keptSems: seq<SemId>,   // a afterwards
    removed: seq<Entry>,    // entries signalled and removed, in scan order
    crashed: bool)          // a.get(i) threw because `a` was shorter than wakeTime

  function Take1<T>(s: seq<T>): seq<T> { if s == [] then [] else s[..1] }
  function Drop1<T>(s: seq<T>): seq<T> { if s == [] then [] else s[1..] }

  function SemsOf(es: seq<Entry>): (r: seq<SemId>)
    ensures |r| == |es|
    ensures forall k :: 0 <= k < |es| ==> r[k] == es[k].sem
  {
    if es == [] then [] else [es[0].sem] + SemsOf(es[1..])
  }

  /**
   * What timerInterrupt does, stated over the ORIGINAL positions of the two
   * lists rather than over the shifting index of the Java loop. Position j is
   * examined unless position j-1 was just removed (`skip`): after a removal
   * the loop still advances its index, so the entry that slid into the freed
   * slot is passed over. An examined entry is removed when the current time
   * is strictly greater than its deadline.
   */
  function Scan(w: seq<int32>, s: seq<SemId>, now: int32, skip: bool): ScanResult
    decreases |w|
  {
    if w == [] then ScanResult([], s, [], false)
    else if !skip && now > w[0] then
      if s == [] then ScanResult(w, [], [], true)
      else
        var r := Scan(w[1..], s[1..], now, true);
        ScanResult(r.kept, r.keptSems, [Entry(w[0], s[0])] + r.removed, r.crashed)
    else
      var r := Scan(w[1..], Drop1(s), now, false);
      ScanResult([w[0]] + r.kept, Take1(s) + r.keptSems, r.removed, r.crashed)
  }

  /** The two lists read side by side, as the entries they register. */
  function Zip(w: seq<int32>, s: seq<SemId>): (r: seq<Entry>)
    requires |w| == |s|
    ensures |r| == |w|
    ensures forall k :: 0 <= k < |w| ==> r[k] == Entry(w[k], s[k])
  {
    if w == [] then [] else [Entry(w[0], s[0])] + Zip(w[1..], s[1..])
  }

  /** `a` is a subsequence of `b`: same elements, same relative order. */
  predicate Subseq<T(==)>(a: seq<T>, b: seq<T>)
    decreases |b|
  {
    a == [] || (b != [] && ((a[0] == b[0] && Subseq(a[1..], b[1..])) || Subseq(a, b[1..])))
  }

  /** The entries that are not yet due at time `now`. */
  function Pending(es: seq<Entry>, now: int32): (r: seq<Entry>)
    ensures forall e :: e in r <==> e in es && !(now > e.deadline)
  {
    if es == [] then []
    else if now > es[0].deadline then Pending(es[1..], now)
    else [es[0]] + Pending(es[1..], now)
  }

  /** The deadlines that are not yet due at time `now`. */
  function PendingTimes(w: seq<int32>, now: int32): (r: seq<int32>)
    ensures forall d :: d in r <==> d in w && !(now > d)
  {
    if w == [] then []
    else if now > w[0] then PendingTimes(w[1..], now)
    else [w[0]] + PendingTimes(w[1..], now)
  }

  // ---------------------------------------------------------------------
  // Properties of one timer interrupt
  // ---------------------------------------------------------------------

  /**
   * Nothing is lost or invented: when the scan completes, every entry either
   * survives or is signalled, and when `a` is at least as long as
   * `wakeTime` the scan cannot throw.
   */
  lemma {:induction false} ScanCounts(w: seq<int32>, s: seq<SemId>, now: int32, skip: bool)
    ensures var r := Scan(w, s, now, skip);
      (|s| >= |w| ==> !r.crashed)
      && (!r.crashed ==> |w| == |r.kept| + |r.removed|)
      && (!r.crashed && |s| >= |w| ==> |s| == |r.keptSems| + |r.removed|)
    decreases |w|
  {
    if w == [] {
    } else if !skip && now > w[0] {
      if s != [] {
        ScanCounts(w[1..], s[1..], now, true);
      }
    } else {
      ScanCounts(w[1..], Drop1(s), now, false);
    }
  }

  /** Only entries whose deadline is strictly before the current time are signalled. */
  lemma {:induction false} ScanRemovesOnlyExpired(w: seq<int32>, s: seq<SemId>, now: int32, skip: bool)
    ensures forall e :: e in Scan(w, s, now, skip).removed ==> now > e.deadline
    decreases |w|
  {
    if w == [] {
    } else if !skip && now > w[0] {
      if s != [] {
        ScanRemovesOnlyExpired(w[1..], s[1..], now, true);
      }
    } else {
      ScanRemovesOnlyExpired(w[1..], Drop1(s), now, false);
    }
  }

  /**
   * With the lists aligned, the scan keeps them aligned, keeps every
   * surviving deadline next to its own semaphore, and keeps the survivors in
   * their original relative order.
   */
  lemma {:induction false} ScanKeepsAlignment(w: seq<int32>, s: seq<SemId>, now: int32, skip: bool)
    requires |w| == |s|
    ensures var r := Scan(w, s, now, skip);
      !r.crashed && |r.kept| == |r.keptSems|
      && Subseq(Zip(r.kept, r.keptSems), Zip(w, s))
      && Subseq(r.removed, Zip(w, s))
    decreases |w|
  {
    if w == [] {
    } else if !skip && now > w[0] {
      ScanKeepsAlignment(w[1..], s[1..], now, true);
      var r := Scan(w[1..], s[1..], now, true);
      assert Zip(w, s) == [Entry(w[0], s[0])] + Zip(w[1..], s[1..]);
      SubseqSkipHead(Zip(r.kept, r.keptSems), Entry(w[0], s[0]), Zip(w[1..], s[1..]));
      SubseqConsHead([Entry(w[0], s[0])] + r.removed, Zip(w, s));
    } else {
      ScanKeepsAlignment(w[1..], s[1..], now, false);
      var r := Scan(w[1..], s[1..], now, false);
      assert Drop1(s) == s[1..] && Take1(s) == [s[0]];
      assert Zip(w, s) == [Entry(w[0], s[0])] + Zip(w[1..], s[1..]);
      var z := Zip([w[0]] + r.kept, [s[0]] + r.keptSems);
      assert z == [Entry(w[0], s[0])] + Zip(r.kept, r.keptSems);
      SubseqConsHead(z, Zip(w, s));
      SubseqSkipHead(r.removed, Entry(w[0], s[0]), Zip(w[1..], s[1..]));
    }
  }

  lemma SubseqConsHead<T>(a: seq<T>, b: seq<T>)
    requires a != [] && b != [] && a[0] == b[0] && Subseq(a[1..], b[1..])
    ensures Subseq(a, b)
  {
  }

  lemma SubseqSkipHead<T>(a: seq<T>, x: T, b: seq<T>)
    requires Subseq(a, b)
    ensures Subseq(a, [x] + b)
  {
    assert ([x] + b)[1..] == b;
  }

  /**
   * No entry whose deadline has not passed is signalled or removed: the
   * pending entries after the scan are exactly those before it, in order.
   */
  lemma {:induction false} ScanKeepsPending(w: seq<int32>, s: seq<SemId>, now: int32, skip: bool)
    requires |w| == |s|
    ensures var r := Scan(w, s, now, skip);
      |r.kept| == |r.keptSems| && Pending(Zip(r.kept, r.keptSems), now) == Pending(Zip(w, s), now)
    decreases |w|
  {
    ScanKeepsAlignment(w, s, now, skip);
    if w == [] {
    } else if !skip && now > w[0] {
      ScanKeepsPending(w[1..], s[1..], now, true);
      assert Zip(w, s) == [Entry(w[0], s[0])] + Zip(w[1..], s[1..]);
    } else {
      ScanKeepsPending(w[1..], s[1..], now, false);
      var r := Scan(w[1..], s[1..], now, false);
      assert Drop1(s) == s[1..] && Take1(s) == [s[0]];
      assert Zip(w, s) == [Entry(w[0], s[0])] + Zip(w[1..], s[1..]);
      assert Zip([w[0]] + r.kept, [s[0]] + r.keptSems) == [Entry(w[0], s[0])] + Zip(r.kept, r.keptSems);
    }
  }

  /**
   * The index quirk: when an entry is removed, the entry right behind it is
   * not examined on that tick and survives, even if it is overdue.
   */
  lemma ScanSkipsSuccessor(w: seq<int32>, s: seq<SemId>, now: int32)
    requires |w| >= 2 && |s| >= 1 && now > w[0]
    ensures var r := Scan(w, s, now, false);
      r.removed != [] && r.removed[0] == Entry(w[0], s[0]) && r.kept != [] && r.kept[0] == w[1]
  {
    assert w[1..][0] == w[1];
  }

  /** A concrete instance: two overdue sleepers, only the first is woken. */
  lemma TwoOverdueOneWoken()
    ensures Scan([3, 4], [0, 1], 10, false) == ScanResult([4], [1], [Entry(3, 0)], false)
  {
    assert [3, 4][1..] == [4];
    assert [0, 1][1..] == [1];
  }

  /**
   * waitUntil's comment promises a wakeup at the first interrupt where the
   * current time is at least the deadline, but the comparison is strict: a
   * tick at exactly the deadline examines the entry and leaves it asleep.
   */
  lemma DeadlineEqualToNowSurvives(w: seq<int32>, s: seq<SemId>, now: int32)
    requires |w| == |s| && w != [] && w[0] == now
    ensures var r := Scan(w, s, now, false);
      r.kept != [] && r.kept[0] == now && r.keptSems[0] == s[0] && Entry(now, s[0]) !in r.removed
  {
    ScanRemovesOnlyExpired(w, s, now, false);
  }

  /** No two neighbouring entries are both overdue. */
  predicate NoAdjacentOverdue(w: seq<int32>, now: int32)
  {
    forall k :: 0 <= k < |w| - 1 ==> !(now > w[k] && now > w[k + 1])
  }

  /**
   * When no two neighbouring entries are overdue, the skip never hides an
   * overdue entry, and the survivors are exactly the pending deadlines, as
   * the code's strict comparison `curTime > wake` defines them.
   */
  lemma {:induction false} ScanExactWhenIsolated(w: seq<int32>, s: seq<SemId>, now: int32, skip: bool)
    requires |w| == |s| && NoAdjacentOverdue(w, now)
    requires skip && w != [] ==> !(now > w[0])
    ensures Scan(w, s, now, skip).kept == PendingTimes(w, now)
    decreases |w|
  {
    if w == [] {
    } else {
      assert NoAdjacentOverdue(w[1..], now) by {
        forall k | 0 <= k < |w[1..]| - 1 ensures !(now > w[1..][k] && now > w[1..][k + 1]) {
          assert w[1..][k] == w[k + 1] && w[1..][k + 1] == w[k + 2];
        }
      }
      if !skip && now > w[0] {
        assert |w| > 1 ==> !(now > w[1]);
        ScanExactWhenIsolated(w[1..], s[1..], now, true);
      } else {
        assert Drop1(s) == s[1..];
        ScanExactWhenIsolated(w[1..], s[1..], now, false);
      }
    }
  }

  // ---------------------------------------------------------------------
  // The shared semaphore list and the Alarm object
  // ---------------------------------------------------------------------

  /**
   * The static field `a` of Alarm.java (one list for every Alarm instance),
   * with a counter that hands out fresh semaphore ids.
   */
  class SleepSemaphores {
    var sems: seq<SemId>
    var nextSem: SemId

    /** Every listed semaphore was handed out before, so a new id is fresh. */
    ghost predicate Valid()
      reads this
    {
      forall k :: 0 <= k < |sems| ==> sems[k] < nextSem
    }

    constructor ()
      ensures sems == [] && nextSem == 0 && Valid()
    {
      sems := [];
      nextSem := 0;
    }
  }

  class Alarm {
    var wakeTime: seq<int32>
    /** The static `a`, shared with every other Alarm. */
    const shared: SleepSemaphores

    /** Entry k of wakeTime belongs with semaphore k of the shared list. */
    ghost predicate Aligned()
      reads this, shared
    {
      |wakeTime| == |shared.sems|
    }

    /** Alarm(): the constructor replaces the static list by an empty one. */
    constructor (shared: SleepSemaphores)
      modifies shared
      ensures this.shared == shared
      ensures wakeTime == [] && shared.sems == [] && shared.nextSem == old(shared.nextSem)
      ensures Aligned() && shared.Valid()
    {
      this.shared := shared;
      wakeTime := [];
      new;
      shared.sems := [];
    }

    /**
     * waitUntil(x) at time `now`, up to the blocking `P()`: nothing happens
     * when x <= 0; otherwise the deadline now + x, computed in `long` and cast
     * to `int`, is appended to wakeTime and a fresh semaphore to `a`.
     */
    method WaitUntil(now: int64, x: int64) returns (sem: Option<SemId>)
      requires shared.Valid()
      modifies this, shared
      ensures shared.Valid()
      ensures x <= 0 ==> (sem == None && wakeTime == old(wakeTime)
        && shared.sems == old(shared.sems) && shared.nextSem == old(shared.nextSem))
      ensures x > 0 ==> (sem.Some? && sem.value !in old(shared.sems)
        && wakeTime == old(wakeTime) + [ToInt32(Wrap64(now + x))]
        && shared.sems == old(shared.sems) + [sem.value]
        && shared.nextSem == old(shared.nextSem) + 1)
      ensures old(Aligned()) ==> Aligned()
    {
      if x <= 0 {
        return None;
      }
      var waketime: int64 := Wrap64(now + x);
      var cT: int32 := ToInt32(waketime);
      wakeTime := wakeTime + [cT];
      var cur := shared.nextSem;
      shared.nextSem := shared.nextSem + 1;
      shared.sems := shared.sems + [cur];
      sem := Some(cur);
    }

    /**
     * timerInterrupt() with the machine clock reading `time`: the scan-and-
     * remove loop, as written. `fired` lists the semaphores signalled with
     * `V()`, in order; `crashed` reports that `a.get(i)` threw.
     */
    method TimerInterrupt(time: int64) returns (fired: seq<SemId>, crashed: bool)
      requires shared.Valid()
      modifies this, shared
      ensures var r := Scan(old(wakeTime), old(shared.sems), ToInt32(time), false);
        wakeTime == r.kept && shared.sems == r.keptSems && fired == SemsOf(r.removed) && crashed == r.crashed
      ensures shared.nextSem == old(shared.nextSem)
      ensures shared.Valid()
      ensures old(Aligned()) ==> Aligned() && !crashed
    {
      var curTime: int32 := ToInt32(time);
      var w, s;
      w, s, fired, crashed := ScanAndRemove(wakeTime, shared.sems, curTime);
      ScanAlignedLengths(wakeTime, shared.sems, curTime, false);
      ScanKeepsIdsBelow(wakeTime, shared.sems, curTime, false, shared.nextSem);
      wakeTime := w;
      shared.sems := s;
    }
  }

  /**
   * The loop of timerInterrupt() on the two lists: walk index i upwards,
   * removing the entry at i from both lists (and signalling its semaphore)
   * when its deadline has passed, and advancing i in either case.
   */
  method ScanAndRemove(wakeTime: seq<int32>, sems: seq<SemId>, curTime: int32)
    returns (w: seq<int32>, s: seq<SemId>, fired: seq<SemId>, crashed: bool)
    ensures var r := Scan(wakeTime, sems, curTime, false);
      w == r.kept && s == r.keptSems && fired == SemsOf(r.removed) && crashed == r.crashed
  {
    w, s := wakeTime, sems;
    ghost var goal := Scan(w, s, curTime, false);
    var i := 0;
    ghost var removed: seq<Entry> := [];
    fired, crashed := [], false;
    ScanStarted(w, s, curTime);
    while i < |w|
      invariant 0 <= i <= |w| + 1
      invariant fired == SemsOf(removed)
      invariant goal == Resume(w, s, i, removed, curTime)
      decreases |w| + 1 - i
    {
      w, s, removed, fired, crashed := ExamineEntry(w, s, i, removed, fired, curTime);
      if crashed {
        return;
      }
      i := i + 1;
    }
    ScanFinished(w, s, i, curTime, removed);
  }

  /**
   * One pass of the loop body at index i: the entry is kept when its
   * deadline has not passed; otherwise it is removed from both lists and its
   * semaphore signalled, or, when `a` has no element i, the scan throws.
   */
  method ExamineEntry(w: seq<int32>, s: seq<SemId>, i: nat, ghost removed: seq<Entry>, fired: seq<SemId>, curTime: int32)
    returns (w': seq<int32>, s': seq<SemId>, ghost removed': seq<Entry>, fired': seq<SemId>, crashed: bool)
    requires i < |w| && fired == SemsOf(removed)
    ensures crashed ==> (w' == w && s' == s && removed' == removed && fired' == fired
      && Resume(w, s, i, removed, curTime) == ScanResult(w, s, removed, true))
    ensures !crashed ==> (fired' == SemsOf(removed') && |w'| <= |w| <= |w'| + 1
      && Resume(w, s, i, removed, curTime) == Resume(w', s', i + 1, removed', curTime))
    ensures crashed ==> curTime > w[i] && i >= |s|
    ensures !crashed && curTime > w[i] ==> (i < |s| && w' == w[..i] + w[i + 1..] && s' == s[..i] + s[i + 1..]
      && fired' == fired + [s[i]] && removed' == removed + [Entry(w[i], s[i])])
    ensures !(curTime > w[i]) ==> (!crashed && w' == w && s' == s && fired' == fired && removed' == removed)
  {
    w', s', removed', fired', crashed := w, s, removed, fired, false;
    var wake := w[i];
    if curTime > wake {
      if i >= |s| {
        // a.get(i) throws IndexOutOfBoundsException
        ScanCrashStep(w, s, i, curTime, removed);
        crashed := true;
        return;
      }
      var b := s[i];
      ScanRemoveStep(w, s, i, curTime, removed);
      SemsOfSnoc(removed, Entry(wake, b));
      fired' := fired + [b];
      removed' := removed + [Entry(wake, b)];
      w' := w[..i] + w[i + 1..];
      s' := s[..i] + s[i + 1..];
    } else {
      ScanKeepStep(w, s, i, curTime, removed);
    }
  }

  // ---------------------------------------------------------------------
  // Helpers for the loop of TimerInterrupt
  // ---------------------------------------------------------------------

  /** Before the loop nothing is settled: the glued result is the whole scan. */
  lemma ScanStarted(w: seq<int32>, s: seq<SemId>, now: int32)
    ensures Resume(w, s, 0, [], now) == Scan(w, s, now, false)
  {
    var r := Scan(w, s, now, false);
    assert Prefix(w, 0) == [] && Suffix(w, 0) == w;
    assert Prefix(s, 0) == [] && Suffix(s, 0) == s;
    assert [] + r.kept == r.kept && [] + r.keptSems == r.keptSems && [] + r.removed == r.removed;
  }

  /** The loop has run past the end: the glued result is the lists as they stand. */
  lemma ScanFinished(w: seq<int32>, s: seq<SemId>, i: nat, now: int32, removed: seq<Entry>)
    requires i >= |w|
    ensures Resume(w, s, i, removed, now) == ScanResult(w, s, removed, false)
  {
    assert Suffix(w, i) == [] && Prefix(w, i) == w;
    assert Prefix(s, i) + Suffix(s, i) == s;
  }

  function Prefix<T>(x: seq<T>, i: int): seq<T>
    requires 0 <= i
  {
    if i <= |x| then x[..i] else x
  }

  function Suffix<T>(x: seq<T>, i: int): seq<T>
    requires 0 <= i
  {
    if i <= |x| then x[i..] else []
  }

  /**
   * The loop's view of the scan: positions before i are settled (survivors
   * in place, `removed` signalled) and the rest is still to be scanned.
   */
  function Resume(w: seq<int32>, s: seq<SemId>, i: nat, removed: seq<Entry>, now: int32): ScanResult
  {
    Glue(Prefix(w, i), Prefix(s, i), removed, Scan(Suffix(w, i), Suffix(s, i), now, false))
  }

  /** A finished prefix in front of the scan of the rest. */
  function Glue(w: seq<int32>, s: seq<SemId>, removed: seq<Entry>, r: ScanResult): ScanResult
  {
    ScanResult(w + r.kept, s + r.keptSems, removed + r.removed, r.crashed)
  }

  lemma SemsOfSnoc(es: seq<Entry>, e: Entry)
    ensures SemsOf(es + [e]) == SemsOf(es) + [e.sem]
  {
  }

  /** Examined entry i is not due: it stays, and the scan goes on at i + 1. */
  lemma ScanKeepStep(w: seq<int32>, s: seq<SemId>, i: nat, now: int32, removed: seq<Entry>)
    requires i < |w| && !(now > w[i])
    ensures Resume(w, s, i, removed, now) == Resume(w, s, i + 1, removed, now)
  {
    var b := Scan(Suffix(w, i + 1), Suffix(s, i + 1), now, false);
    KeepStepScan(w, s, i, now);
    KeepStepSems(s, i);
    KeepStepTimes(w, i);
    GlueKeep(Prefix(w, i), Prefix(s, i), removed, w[i], Take1(Suffix(s, i)), b);
  }

  lemma KeepStepTimes(w: seq<int32>, i: nat)
    requires i < |w|
    ensures Prefix(w, i) + [w[i]] == Prefix(w, i + 1)
  {
    assert w[..i] + [w[i]] == w[..i + 1];
  }

  /** Moving a kept entry from the scanned part into the finished prefix leaves the glued result alone. */
  lemma GlueKeep(pw: seq<int32>, ps: seq<SemId>, removed: seq<Entry>, x: int32, tx: seq<SemId>, r: ScanResult)
    ensures Glue(pw, ps, removed, ScanResult([x] + r.kept, tx + r.keptSems, r.removed, r.crashed))
      == Glue(pw + [x], ps + tx, removed, r)
  {
    assert pw + ([x] + r.kept) == (pw + [x]) + r.kept;
    assert ps + (tx + r.keptSems) == (ps + tx) + r.keptSems;
  }

  /** The scan from a position that is not due keeps that entry in front of the scan from the next one. */
  lemma KeepStepScan(w: seq<int32>, s: seq<SemId>, i: nat, now: int32)
    requires i < |w| && !(now > w[i])
    ensures var b := Scan(Suffix(w, i + 1), Suffix(s, i + 1), now, false);
      Scan(Suffix(w, i), Suffix(s, i), now, false)
        == ScanResult([w[i]] + b.kept, Take1(Suffix(s, i)) + b.keptSems, b.removed, b.crashed)
  {
    var tw, ts := Suffix(w, i), Suffix(s, i);
    assert tw == w[i..] && tw[0] == w[i];
    assert tw[1..] == Suffix(w, i + 1);
    KeepStepSems(s, i);
    KeptHead(tw, ts, now);
  }

  lemma KeepStepSems(s: seq<SemId>, i: nat)
    ensures Drop1(Suffix(s, i)) == Suffix(s, i + 1)
    ensures Prefix(s, i) + Take1(Suffix(s, i)) == Prefix(s, i + 1)
  {
    if i < |s| {
      assert Suffix(s, i)[1..] == Suffix(s, i + 1);
      assert Suffix(s, i)[..1] == [s[i]];
    }
  }

  /** An examined head that is not due stays. */
  lemma KeptHead(w: seq<int32>, s: seq<SemId>, now: int32)
    requires w != [] && !(now > w[0])
    ensures var r := Scan(w[1..], Drop1(s), now, false);
      Scan(w, s, now, false) == ScanResult([w[0]] + r.kept, Take1(s) + r.keptSems, r.removed, r.crashed)
  {
  }

  /** Examined entry i is due but `a` has no element i: the scan throws with the lists as they are. */
  lemma ScanCrashStep(w: seq<int32>, s: seq<SemId>, i: nat, now: int32, removed: seq<Entry>)
    requires i < |w| && now > w[i] && i >= |s|
    ensures Resume(w, s, i, removed, now) == ScanResult(w, s, removed, true)
  {
    assert Prefix(w, i) + Suffix(w, i) == w;
    assert Suffix(s, i) == [] && Prefix(s, i) == s;
  }

  /**
   * Examined entry i is due: it is removed from both lists, the index moves
   * on, and the entry that slid into slot i counts as passed over.
   */
  lemma ScanRemoveStep(w: seq<int32>, s: seq<SemId>, i: nat, now: int32, removed: seq<Entry>)
    requires i < |w| && now > w[i] && i < |s|
    ensures Resume(w, s, i, removed, now)
      == Resume(w[..i] + w[i + 1..], s[..i] + s[i + 1..], i + 1, removed + [Entry(w[i], s[i])], now)
  {
    var w', s' := w[..i] + w[i + 1..], s[..i] + s[i + 1..];
    assert Suffix(w, i) == w[i..] && Suffix(s, i) == s[i..];
    assert w[i..][1..] == w[i + 1..];
    assert s[i..][1..] == s[i + 1..];
    var r1 := Scan(w[i + 1..], s[i + 1..], now, true);
    var whole := Scan(w[i..], s[i..], now, false);
    assert whole == ScanResult(r1.kept, r1.keptSems, [Entry(w[i], s[i])] + r1.removed, r1.crashed);
    assert removed + whole.removed == (removed + [Entry(w[i], s[i])]) + r1.removed;
    assert Prefix(w, i) == w[..i] && Prefix(s, i) == s[..i];
    if i + 1 == |w| {
      NextSlotAtEnd(w, s, i, now);
    } else {
      NextSlotSkipped(w, s, i, now);
    }
  }

  /** Removing the last entry: nothing is left to pass over. */
  lemma NextSlotAtEnd(w: seq<int32>, s: seq<SemId>, i: nat, now: int32)
    requires i + 1 == |w| && i < |s|
    ensures var w', s' := w[..i] + w[i + 1..], s[..i] + s[i + 1..];
      var r1 := Scan(w[i + 1..], s[i + 1..], now, true);
      var r2 := Scan(Suffix(w', i + 1), Suffix(s', i + 1), now, false);
      w[..i] + r1.kept == Prefix(w', i + 1) + r2.kept
      && s[..i] + r1.keptSems == Prefix(s', i + 1) + r2.keptSems
      && r1.removed == r2.removed && r1.crashed == r2.crashed
  {
    var w', s' := w[..i] + w[i + 1..], s[..i] + s[i + 1..];
    assert w[i + 1..] == [];
    assert w' == w[..i];
    assert Prefix(w', i + 1) == w[..i] && Suffix(w', i + 1) == [];
    if i + 1 < |s| {
      assert Prefix(s', i + 1) == s[..i] + [s[i + 1]];
      assert s[i + 1..] == [s[i + 1]] + s[i + 2..];
      assert Suffix(s', i + 1) == s[i + 2..];
      assert s[..i] + s[i + 1..] == (s[..i] + [s[i + 1]]) + s[i + 2..];
    } else {
      assert s[i + 1..] == [];
      assert Prefix(s', i + 1) == s[..i] && Suffix(s', i + 1) == [];
    }
  }

  /** Removing entry i: the entry that slides into slot i is passed over. */
  lemma NextSlotSkipped(w: seq<int32>, s: seq<SemId>, i: nat, now: int32)
    requires i + 1 < |w| && i < |s|
    ensures var w', s' := w[..i] + w[i + 1..], s[..i] + s[i + 1..];
      var r1 := Scan(w[i + 1..], s[i + 1..], now, true);
      var r2 := Scan(Suffix(w', i + 1), Suffix(s', i + 1), now, false);
      w[..i] + r1.kept == Prefix(w', i + 1) + r2.kept
      && s[..i] + r1.keptSems == Prefix(s', i + 1) + r2.keptSems
      && r1.removed == r2.removed && r1.crashed == r2.crashed
  {
    var tw, ts := w[i + 1..], s[i + 1..];
    SkipSlices(w, s, i);
    SkippedHead(tw, ts, now);
    var r := Scan(tw[1..], Drop1(ts), now, false);
    assert w[..i] + ([w[i + 1]] + r.kept) == (w[..i] + [w[i + 1]]) + r.kept;
    assert s[..i] + (Take1(ts) + r.keptSems) == (s[..i] + Take1(ts)) + r.keptSems;
  }

  /** Where slot i + 1 of the lists with entry i removed comes from. */
  lemma SkipSlices(w: seq<int32>, s: seq<SemId>, i: nat)
    requires i + 1 < |w| && i < |s|
    ensures var w', s' := w[..i] + w[i + 1..], s[..i] + s[i + 1..];
      w[i + 1..] != [] && w[i + 1..][0] == w[i + 1] && w[i + 1..][1..] == w[i + 2..]
      && Prefix(w', i + 1) == w[..i] + [w[i + 1]] && Suffix(w', i + 1) == w[i + 2..]
      && Prefix(s', i + 1) == s[..i] + Take1(s[i + 1..]) && Suffix(s', i + 1) == Drop1(s[i + 1..])
  {
    var w', s' := w[..i] + w[i + 1..], s[..i] + s[i + 1..];
    assert w[i + 1..][1..] == w[i + 2..];
    assert Prefix(w', i + 1) == w[..i] + [w[i + 1]];
    assert Suffix(w', i + 1) == w[i + 2..];
    if i + 1 < |s| {
      assert Prefix(s', i + 1) == s[..i] + [s[i + 1]];
      assert Take1(s[i + 1..]) == [s[i + 1]];
      assert Suffix(s', i + 1) == s[i + 2..];
      assert Drop1(s[i + 1..]) == s[i + 2..];
    } else {
      assert s[i + 1..] == [];
      assert Prefix(s', i + 1) == s[..i] && Suffix(s', i + 1) == [];
    }
  }

  /** A passed-over head stays, whatever its deadline. */
  lemma SkippedHead(w: seq<int32>, s: seq<SemId>, now: int32)
    requires w != []
    ensures var r := Scan(w[1..], Drop1(s), now, false);
      Scan(w, s, now, true) == ScanResult([w[0]] + r.kept, Take1(s) + r.keptSems, r.removed, r.crashed)
  {
  }

  /** With aligned lists the scan cannot throw and leaves them aligned. */
  lemma {:induction false} ScanAlignedLengths(w: seq<int32>, s: seq<SemId>, now: int32, skip: bool)
    ensures |w| == |s| ==> (!Scan(w, s, now, skip).crashed
      && |Scan(w, s, now, skip).kept| == |Scan(w, s, now, skip).keptSems|)
    decreases |w|
  {
    if w != [] && |w| == |s| {
      ScanAlignedLengths(w[1..], s[1..], now, !skip && now > w[0]);
      assert Drop1(s) == s[1..] && Take1(s) == [s[0]];
    }
  }

  /** Semaphore ids below a bound stay below it: the scan only drops ids. */
  lemma ScanKeepsIdsBelow(w: seq<int32>, s: seq<SemId>, now: int32, skip: bool, bound: nat)
    ensures (forall k :: 0 <= k < |s| ==> s[k] < bound) ==>
      forall k :: 0 <= k < |Scan(w, s, now, skip).keptSems| ==> Scan(w, s, now, skip).keptSems[k] < bound
  {
    var r := Scan(w, s, now, skip);
    if forall k :: 0 <= k < |s| ==> s[k] < bound {
      ScanKeptSemsFromList(w, s, now, skip);
      forall k | 0 <= k < |r.keptSems| ensures r.keptSems[k] < bound {
        assert r.keptSems[k] in s;
      }
    }
  }

  /** The semaphores left in `a` all come from `a`. */
  lemma {:induction false} ScanKeptSemsFromList(w: seq<int32>, s: seq<SemId>, now: int32, skip: bool)
    ensures forall x :: x in Scan(w, s, now, skip).keptSems ==> x in s
    decreases |w|
  {
    if w == [] {
    } else if !skip && now > w[0] {
      if s != [] {
        ScanKeptSemsFromList(w[1..], s[1..], now, true);
      }
    } else {
      ScanKeptSemsFromList(w[1..], Drop1(s), now, false);
      if s != [] {
        assert Take1(s) == [s[0]];
        assert forall x :: x in Drop1(s) ==> x in s;
      }
    }
  }

  // ---------------------------------------------------------------------
  // Two Alarm instances sharing the static list
  // ---------------------------------------------------------------------

  /**
   * Because `a` is static, a tick of one Alarm signals the semaphore that a
   * sleeper registered through another. The constructor hands the timer's
   * interrupt handler to the Alarm built last, so it is `second` that is
   * ticked. The sleeper that registered through `first` (`theirs`) is woken
   * by `second`'s deadline. `second`'s own sleeper (`mine`) is never
   * signalled: its deadline has left `second`'s list, but its semaphore stays
   * in `a`. `first` keeps a deadline whose semaphore has already fired.
   */
  method CrossInstanceWakeup() returns (theirs: SemId, mine: SemId, fired: seq<SemId>,
    leftSems: seq<SemId>, ownDeadlines: seq<int32>, otherDeadlines: seq<int32>)
    ensures fired == [theirs] && theirs != mine && mine !in fired
    ensures leftSems == [mine] && ownDeadlines == [] && otherDeadlines == [10]
  {
    var list := new SleepSemaphores();
    var first := new Alarm(list);
    var second := new Alarm(list);
    var s1 := first.WaitUntil(0, 10);
    var s2 := second.WaitUntil(0, 100);
    assert second.wakeTime == [100] && list.sems == [s1.value, s2.value];
    var crashed;
    fired, crashed := second.TimerInterrupt(200);
    assert Scan([100], [s1.value, s2.value], 200, false).removed == [Entry(100, s1.value)];
    theirs, mine := s1.value, s2.value;
    leftSems, ownDeadlines, otherDeadlines := list.sems, second.wakeTime, first.wakeTime;
  }
}
