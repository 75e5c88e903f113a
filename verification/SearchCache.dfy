/**
 The search-result cache of pkg/collection/collection.go against the collection's writers.

 A search looks its key up, and on a miss read-locks the collection, computes, stores the result
 and only then releases the lock.  A write locks, applies, unlocks and afterwards clears the whole
 cache; `Upsert` and `InsertV2` do not clear it.  The index is its version, the number of
 applied changes, and a result is the key and the version it was computed for.  Threads interleave freely
 between these steps, and the cache may drop any entry at any moment (capacity, time to live).
 */
module SearchCache {
  import opened Wrappers

  type Key = string

  datatype Kind = Insert | InsertBatch | Delete | Upsert | InsertV2

  /** The writes that end in InvalidateCollection. */
  predicate Invalidates(k: Kind) {
    k.Insert? || k.InsertBatch? || k.Delete?
  }

  datatype Phase = Pending | Cleared | Returned

  /** One applied change: who made it, in which operation, and how far that operation has come since. */
  datatype Write = Write(owner: nat, kind: Kind, phase: Phase)

  /** A search result: the query it answers and the version of the index it was computed on. */
  datatype Answer = Answer(key: Key, version: nat)

  /** Where a thread is; `seen` is the log of changes as it stood when the search began. */
  datatype Pc =
    | Idle
    | Lookup(key: Key, seen: seq<Write>)
    | Waiting(key: Key, cached: bool, seen: seq<Write>)       // missed, or bypasses the cache
    | Reading(key: Key, cached: bool, seen: seq<Write>)       // holds the read lock
    | Storing(key: Key, seen: seq<Write>, answer: Answer)     // holds the read lock, has its result
    | Leaving(key: Key, seen: seq<Write>, answer: Answer)     // holds the read lock, result stored
    | Served(key: Key, seen: seq<Write>, answer: Answer)      // has returned the result
    | Locking(kind: Kind, left: nat, applied: bool)           // `left` points still to apply
    | Applying(kind: Kind, left: nat, applied: bool)          // holds the write lock
    | Unlocking(kind: Kind, left: nat, applied: bool)         // holds the write lock, change made
    | Clearing(kind: Kind)
    | Returning(kind: Kind)

  datatype State = State(pcs: seq<Pc>, cache: map<Key, Answer>, log: seq<Write>)

  predicate HasReadLock(pc: Pc) { pc.Reading? || pc.Storing? || pc.Leaving? }
  predicate HasWriteLock(pc: Pc) { pc.Applying? || pc.Unlocking? }

  ghost predicate MayRead(s: State) {
    forall i :: 0 <= i < |s.pcs| ==> !HasWriteLock(s.pcs[i])
  }
  ghost predicate MayWrite(s: State) {
    forall i :: 0 <= i < |s.pcs| ==> !HasWriteLock(s.pcs[i]) && !HasReadLock(s.pcs[i])
  }

  function Init(n: nat): State {
    State(seq(n, _ => Idle), map[], [])
  }

  function At(s: State, t: nat, pc: Pc): State
    requires t < |s.pcs|
  {
    s.(pcs := s.pcs[t := pc])
  }

  /** Moves every change of `t` that has not returned yet to `phase`. */
  function Mark(log: seq<Write>, t: nat, phase: Phase): (r: seq<Write>)
    ensures |r| == |log|
  {
    seq(|log|, i requires 0 <= i < |log| =>
      if log[i].owner == t && log[i].phase != Returned then log[i].(phase := phase) else log[i])
  }

  ghost predicate Begins(s: State, t: nat, pc: Pc) {
    || (pc.Lookup? && pc.seen == s.log)
    || (pc.Waiting? && !pc.cached && pc.seen == s.log)
    || (pc.Locking? && !pc.applied && (pc.left == 1 || (pc.kind == InsertBatch && pc.left > 0)))
    || pc == Clearing(InsertBatch)   // a batch without a valid point still clears
  }

  /** One step of thread `t`. */
  ghost predicate Next(s: State, t: nat, s': State) {
    t < |s.pcs| &&
    match s.pcs[t]
    case Idle =>
      |s'.pcs| == |s.pcs| && Begins(s, t, s'.pcs[t]) && s' == At(s, t, s'.pcs[t])
    case Lookup(key, seen) =>
      s' == At(s, t, if key in s.cache then Served(key, seen, s.cache[key]) else Waiting(key, true, seen))
    case Waiting(key, cached, seen) =>
      MayRead(s) && s' == At(s, t, Reading(key, cached, seen))
    case Reading(key, cached, seen) =>
      var answer := Answer(key, |s.log|);
      || s' == At(s, t, Idle)   // dimension mismatch or a failing index: an error, nothing stored
      || s' == At(s, t, if cached then Storing(key, seen, answer) else Leaving(key, seen, answer))
    case Storing(key, seen, answer) =>
      s' == At(s, t, Leaving(key, seen, answer)).(cache := s.cache[key := answer])
    case Leaving(key, seen, answer) =>
      s' == At(s, t, Served(key, seen, answer))
    case Served(_, _, _) =>
      s' == At(s, t, Idle)
    case Locking(kind, left, applied) =>
      MayWrite(s) && s' == At(s, t, Applying(kind, left, applied))
    case Applying(kind, left, applied) =>
      left > 0 &&
      (|| s' == At(s, t, Unlocking(kind, left - 1, applied))   // the index refused the point
       || s' == At(s, t, Unlocking(kind, left - 1, true)).(log := s.log + [Write(t, kind, Pending)]))
    case Unlocking(kind, left, applied) =>
      s' == At(s, t,
               if left > 0 then Locking(kind, left, applied)
               else if Invalidates(kind) && (applied || kind == InsertBatch) then Clearing(kind)
               else Returning(kind))
    case Clearing(kind) =>
      s' == At(s, t, Returning(kind)).(cache := map[], log := Mark(s.log, t, Cleared))
    case Returning(kind) =>
      s' == At(s, t, Idle).(log := Mark(s.log, t, Returned))
  }

  /** The cache drops one entry. */
  ghost predicate Drops(s: State, s': State) {
    exists key: Key :: s' == s.(cache := s.cache - {key})
  }

  ghost predicate Steps(s: State, s': State) {
    (exists t: nat :: Next(s, t, s')) || Drops(s, s')
  }

  ghost predicate IsRun(n: nat, run: seq<State>) {
    && |run| > 0
    && run[0] == Init(n)
    && forall i :: 0 < i < |run| ==> Steps(run[i - 1], run[i])
  }

  /** `version` includes every change of kind `k` that had returned to its caller when the log was `seen`. */
  ghost predicate Covers(k: Kind, seen: seq<Write>, version: nat) {
    forall w :: 0 <= w < |seen| && seen[w].kind == k && seen[w].phase == Returned ==> w < version
  }

  /** No search in `s` has been served a result older than a `k` that returned before the search began. */
  ghost predicate Fresh(k: Kind, s: State) {
    forall i :: 0 <= i < |s.pcs| && s.pcs[i].Served? ==> Covers(k, s.pcs[i].seen, s.pcs[i].answer.version)
  }

  // ---------- the invariant ----------

  ghost predicate LocksExclude(s: State) {
    forall i, j :: 0 <= i < |s.pcs| && 0 <= j < |s.pcs| && i != j && HasWriteLock(s.pcs[i]) ==>
      !HasWriteLock(s.pcs[j]) && !HasReadLock(s.pcs[j])
  }

  /** The operation of thread `pc` may still hold uncleared changes of kind `k`. */
  predicate BeforeClear(pc: Pc, k: Kind) {
    (pc.Locking? || pc.Applying? || pc.Unlocking? || pc.Clearing?) && pc.kind == k
  }

  /** A change is pending only while its operation still has its Clear ahead, and knows it. */
  ghost predicate PhasesTruthful(s: State) {
    forall w :: 0 <= w < |s.log| && Invalidates(s.log[w].kind) && s.log[w].phase == Pending ==>
      && s.log[w].owner < |s.pcs|
      && var pc := s.pcs[s.log[w].owner];
      && BeforeClear(pc, s.log[w].kind)
      && (pc.Clearing? || pc.applied)
  }

  /** A stale entry exists only while every newer invalidating write still has its Clear pending. */
  ghost predicate StaleOnlyWhilePending(s: State) {
    forall key, w :: key in s.cache && s.cache[key].version <= w < |s.log| && Invalidates(s.log[w].kind) ==>
      s.log[w].phase == Pending
  }

  /** What a search remembers of the log stays true of the log. */
  ghost predicate Remembers(seen: seq<Write>, log: seq<Write>) {
    && |seen| <= |log|
    && forall w :: 0 <= w < |seen| && seen[w].phase == Returned ==> log[w] == seen[w]
  }

  ghost predicate SearchOk(pc: Pc, log: seq<Write>) {
    && (pc.Lookup? || pc.Waiting? || pc.Reading? || pc.Storing? || pc.Leaving? || pc.Served? ==> Remembers(pc.seen, log))
    && (pc.Storing? || pc.Leaving? ==> pc.answer == Answer(pc.key, |log|))
    && (pc.Served? ==> pc.answer.key == pc.key && pc.answer.version <= |log|)
    && (pc.Served? ==> forall k :: Invalidates(k) ==> Covers(k, pc.seen, pc.answer.version))
  }

  ghost predicate SearchesOk(s: State) {
    forall i :: 0 <= i < |s.pcs| ==> SearchOk(s.pcs[i], s.log)
  }

  /** Every cached result answers the query it is filed under. */
  ghost predicate Filed(s: State) {
    forall key :: key in s.cache ==> s.cache[key].key == key && s.cache[key].version <= |s.log|
  }

  ghost predicate Inv(s: State) {
    LocksExclude(s) && PhasesTruthful(s) && StaleOnlyWhilePending(s) && SearchesOk(s) && Filed(s)
  }

  lemma StepFiled(s: State, t: nat, s': State)
    requires SearchesOk(s) && Filed(s) && Next(s, t, s')
    ensures Filed(s')
  {
    assert SearchOk(s.pcs[t], s.log);
  }

  lemma StepLocks(s: State, t: nat, s': State)
    requires LocksExclude(s) && Next(s, t, s')
    ensures LocksExclude(s') && |s'.pcs| == |s.pcs|
    ensures forall i :: 0 <= i < |s.pcs| && i != t ==> s'.pcs[i] == s.pcs[i]
  {
  }

  lemma StepPhases(s: State, t: nat, s': State)
    requires PhasesTruthful(s) && Next(s, t, s')
    ensures PhasesTruthful(s')
  {
    var pc := s.pcs[t];
    if pc.Applying? && |s'.log| > |s.log| {
      assert forall w :: 0 <= w < |s.log| ==> s'.log[w] == s.log[w];
    }
  }

  lemma StepStale(s: State, t: nat, s': State)
    requires LocksExclude(s) && PhasesTruthful(s) && StaleOnlyWhilePending(s) && SearchesOk(s) && Next(s, t, s')
    ensures StaleOnlyWhilePending(s')
  {
    forall key, w | key in s'.cache && s'.cache[key].version <= w < |s'.log| && Invalidates(s'.log[w].kind)
      ensures s'.log[w].phase == Pending
    {
      if s.pcs[t].Storing? {
        assert SearchOk(s.pcs[t], s.log);
      } else if w < |s.log| {
        assert key in s.cache && s.log[w].phase == Pending;
      }
    }
  }

  /** A log only grows and its returned changes never change again. */
  lemma StepRemembers(s: State, t: nat, s': State, seen: seq<Write>)
    requires Next(s, t, s') && Remembers(seen, s.log)
    ensures Remembers(seen, s'.log)
  {
  }

  lemma StepSearches(s: State, t: nat, s': State)
    requires LocksExclude(s) && StaleOnlyWhilePending(s) && SearchesOk(s) && Filed(s) && Next(s, t, s')
    ensures SearchesOk(s')
  {
    forall i | 0 <= i < |s'.pcs|
      ensures SearchOk(s'.pcs[i], s'.log)
    {
      var pc := s.pcs[i];
      assert SearchOk(pc, s.log);
      if pc.Lookup? || pc.Waiting? || pc.Reading? || pc.Storing? || pc.Leaving? || pc.Served? {
        StepRemembers(s, t, s', pc.seen);
        if i == t && pc.Lookup? && pc.key in s.cache {
          HitCovers(s, pc.key, pc.seen);
        }
      }
    }
  }

  lemma HitCovers(s: State, key: Key, seen: seq<Write>)
    requires StaleOnlyWhilePending(s) && key in s.cache && Remembers(seen, s.log)
    ensures forall k :: Invalidates(k) ==> Covers(k, seen, s.cache[key].version)
  {
    forall k, w | Invalidates(k) && 0 <= w < |seen| && seen[w].kind == k && seen[w].phase == Returned
      ensures w < s.cache[key].version
    {
      assert s.log[w] == seen[w];
    }
  }

  lemma StepInv(s: State, s': State)
    requires Inv(s) && Steps(s, s')
    ensures Inv(s')
  {
    if Drops(s, s') {
    } else {
      var t: nat :| Next(s, t, s');
      StepLocks(s, t, s');
      StepPhases(s, t, s');
      StepStale(s, t, s');
      StepSearches(s, t, s');
      StepFiled(s, t, s');
    }
  }

  /** The invariant holds in every state of every run. */
  lemma {:induction false} RunInv(n: nat, run: seq<State>, i: nat)
    requires IsRun(n, run) && i < |run|
    ensures Inv(run[i])
  {
    if i > 0 {
      RunInv(n, run, i - 1);
      StepInv(run[i - 1], run[i]);
    }
  }

  // ---------- which writes a later search always sees ----------

  ghost predicate AlwaysFresh(k: Kind) {
    forall n: nat, run: seq<State>, i :: IsRun(n, run) && 0 <= i < |run| ==> Fresh(k, run[i])
  }

  lemma Extend(run: seq<State>, s: State)
    requires IsRun(1, run) && Next(run[|run| - 1], 0, s)
    ensures IsRun(1, run + [s])
  {
    assert Steps(run[|run| - 1], s);
  }

  const COLD := Answer("q", 0)

  /** One thread searches for "q" on the untouched index and leaves its answer in the cache. */
  lemma WarmCache() returns (run: seq<State>)
    ensures IsRun(1, run) && run[|run| - 1] == State([Idle], map["q" := COLD], [])
  {
    run := [Init(1)];
    assert Init(1).pcs == [Idle];
    var s1 := State([Lookup("q", [])], map[], []);
    Extend(run, s1); run := run + [s1];
    var s2 := State([Waiting("q", true, [])], map[], []);
    Extend(run, s2); run := run + [s2];
    var s3 := State([Reading("q", true, [])], map[], []);
    Extend(run, s3); run := run + [s3];
    var s4 := State([Storing("q", [], COLD)], map[], []);
    Extend(run, s4); run := run + [s4];
    var s5 := State([Leaving("q", [], COLD)], map["q" := COLD], []);
    Extend(run, s5); run := run + [s5];
    var s6 := State([Served("q", [], COLD)], map["q" := COLD], []);
    Extend(run, s6); run := run + [s6];
    var s7 := State([Idle], map["q" := COLD], []);
    Extend(run, s7); run := run + [s7];
  }

  /** A change by `k` goes through and returns; the cached answer survives it. */
  lemma WriteWithoutClear(k: Kind) returns (run: seq<State>)
    requires !Invalidates(k)
    ensures IsRun(1, run) && run[|run| - 1] == State([Idle], map["q" := COLD], [Write(0, k, Returned)])
  {
    run := WarmCache();
    var w := Write(0, k, Pending);
    var s1 := State([Locking(k, 1, false)], map["q" := COLD], []);
    Extend(run, s1); run := run + [s1];
    var s2 := State([Applying(k, 1, false)], map["q" := COLD], []);
    Extend(run, s2); run := run + [s2];
    var s3 := State([Unlocking(k, 0, true)], map["q" := COLD], [w]);
    Extend(run, s3); run := run + [s3];
    var s4 := State([Returning(k)], map["q" := COLD], [w]);
    Extend(run, s4); run := run + [s4];
    var s5 := State([Idle], map["q" := COLD], [Write(0, k, Returned)]);
    assert Mark([w], 0, Returned) == s5.log;
    Extend(run, s5); run := run + [s5];
  }

  /** One thread searches, changes a point by `k` and searches again: the second answer is the first one. */
  lemma StaleAfter(k: Kind) returns (run: seq<State>)
    requires !Invalidates(k)
    ensures IsRun(1, run) && !Fresh(k, run[|run| - 1])
  {
    run := WriteWithoutClear(k);
    var log := [Write(0, k, Returned)];
    var s1 := State([Lookup("q", log)], map["q" := COLD], log);
    Extend(run, s1); run := run + [s1];
    var s2 := State([Served("q", log, COLD)], map["q" := COLD], log);
    Extend(run, s2); run := run + [s2];
    assert log[0].kind == k && log[0].phase == Returned && s2.pcs[0].Served?;
    assert !Covers(k, log, 0);
  }

  /** In every interleaving a search that starts after a write returned sees it, exactly for these three writes. */
  lemma FreshExactly(k: Kind)
    ensures AlwaysFresh(k) <==> k == Insert || k == InsertBatch || k == Delete
  {
    if Invalidates(k) {
      forall n: nat, run: seq<State>, i | IsRun(n, run) && 0 <= i < |run|
        ensures Fresh(k, run[i])
      {
        RunInv(n, run, i);
        assert SearchesOk(run[i]);
      }
    } else {
      var run := StaleAfter(k);
    }
  }

  /** In every run, whatever is served answers the query that was asked, on a version the index has had. */
  lemma ServedAnswersQuery(n: nat, run: seq<State>, i: nat, t: nat)
    requires IsRun(n, run) && i < |run| && t < |run[i].pcs| && run[i].pcs[t].Served?
    ensures run[i].pcs[t].answer.key == run[i].pcs[t].key && run[i].pcs[t].answer.version <= |run[i].log|
  {
    RunInv(n, run, i);
    assert SearchOk(run[i].pcs[t], run[i].log);
  }

  // ---------- no deadlock ----------

  /** A writer at or past the lock has a point left to apply. */
  ghost predicate PointsLeft(s: State) {
    forall i :: 0 <= i < |s.pcs| && (s.pcs[i].Locking? || s.pcs[i].Applying?) ==> s.pcs[i].left > 0
  }

  lemma StepLeft(s: State, t: nat, s': State)
    requires PointsLeft(s) && Next(s, t, s')
    ensures PointsLeft(s')
  {
    assert forall i :: 0 <= i < |s.pcs| && i != t ==> s'.pcs[i] == s.pcs[i];
  }

  lemma {:induction false} RunLeft(n: nat, run: seq<State>, i: nat)
    requires IsRun(n, run) && i < |run|
    ensures PointsLeft(run[i])
  {
    if i > 0 {
      RunLeft(n, run, i - 1);
      assert Steps(run[i - 1], run[i]);
      if !Drops(run[i - 1], run[i]) {
        var t: nat :| Next(run[i - 1], t, run[i]);
        StepLeft(run[i - 1], t, run[i]);
      }
    }
  }

  /** The step of a search that waits for nobody. */
  lemma SearchMoves(s: State, t: nat) returns (s': State)
    requires t < |s.pcs|
    requires s.pcs[t].Lookup? || HasReadLock(s.pcs[t]) || s.pcs[t].Served?
    ensures Next(s, t, s')
  {
    match s.pcs[t]
    case Lookup(key, seen) =>
      s' := At(s, t, if key in s.cache then Served(key, seen, s.cache[key]) else Waiting(key, true, seen));
    case Reading(_, _, _) => s' := At(s, t, Idle);
    case Storing(key, seen, answer) => s' := At(s, t, Leaving(key, seen, answer)).(cache := s.cache[key := answer]);
    case Leaving(key, seen, answer) => s' := At(s, t, Served(key, seen, answer));
    case Served(_, _, _) => s' := At(s, t, Idle);
  }

  /** The step of a write that waits for nobody. */
  lemma WriteMoves(s: State, t: nat) returns (s': State)
    requires t < |s.pcs| && PointsLeft(s)
    requires HasWriteLock(s.pcs[t]) || s.pcs[t].Clearing? || s.pcs[t].Returning?
    ensures Next(s, t, s')
  {
    match s.pcs[t]
    case Applying(kind, left, applied) => s' := At(s, t, Unlocking(kind, left - 1, applied));
    case Unlocking(kind, left, applied) =>
      s' := At(s, t,
               if left > 0 then Locking(kind, left, applied)
               else if Invalidates(kind) && (applied || kind == InsertBatch) then Clearing(kind)
               else Returning(kind));
    case Clearing(kind) => s' := At(s, t, Returning(kind)).(cache := map[], log := Mark(s.log, t, Cleared));
    case Returning(kind) => s' := At(s, t, Idle).(log := Mark(s.log, t, Returned));
  }

  /** While any search or write is going on, one of them can take its next step. */
  lemma NeverStuck(n: nat, run: seq<State>, i: nat) returns (t: nat, s': State)
    requires IsRun(n, run) && i < |run|
    requires exists u :: 0 <= u < |run[i].pcs| && !run[i].pcs[u].Idle?
    ensures Next(run[i], t, s') && !run[i].pcs[t].Idle?
  {
    var s := run[i];
    RunLeft(n, run, i);
    if u :| 0 <= u < |s.pcs| && (s.pcs[u].Lookup? || HasReadLock(s.pcs[u]) || s.pcs[u].Served?) {
      t := u;
      s' := SearchMoves(s, t);
    } else if u :| 0 <= u < |s.pcs| && (HasWriteLock(s.pcs[u]) || s.pcs[u].Clearing? || s.pcs[u].Returning?) {
      t := u;
      s' := WriteMoves(s, t);
    } else {
      t :| 0 <= t < |s.pcs| && !s.pcs[t].Idle?;
      s' := Admitted(s, t);
    }
  }

  /** With no lock held, whoever waits for one gets it. */
  lemma Admitted(s: State, t: nat) returns (s': State)
    requires t < |s.pcs| && (s.pcs[t].Waiting? || s.pcs[t].Locking?) && MayWrite(s)
    ensures Next(s, t, s')
  {
    if s.pcs[t].Waiting? {
      s' := At(s, t, Reading(s.pcs[t].key, s.pcs[t].cached, s.pcs[t].seen));
    } else {
      s' := At(s, t, Applying(s.pcs[t].kind, s.pcs[t].left, s.pcs[t].applied));
    }
  }
}
