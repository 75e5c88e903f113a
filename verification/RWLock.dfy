/**
 The hand-written read-write lock of internal/sync/rwlock.go.

 The lock is two atomic 32-bit counters and a mutex.  A program point (`Pc`) stands before every
 atomic access of the six operations, so a run is any interleaving of the accesses of any number
 of threads.  A thread calls `RUnlock` and `Unlock` only when it is inside; that is what the
 operations demand of their callers.
 */
module RWLock {

  /** Where a thread is.  `try` tells the non-blocking operation from the blocking one. */
  datatype Pc =
    | Idle
    | RLoad(try: bool)   // about to load `writers`
    | RAdd(try: bool)    // about to add 1 to `readers`
    | RCheck(try: bool)  // has added, about to load `writers` again
    | RBack(try: bool)   // has added, about to take it back
    | RIn                // inside as a reader; the next access is the one of RUnlock
    | WLock(try: bool)   // about to lock the mutex
    | WAdd(try: bool)    // holds the mutex, about to add 1 to `writers`
    | WCheck(try: bool)  // has added, about to load `readers`
    | WBack              // TryLock saw a reader, about to take the addition back
    | WIn                // inside as a writer; the next access is the first one of Unlock
    | WRelease           // about to unlock the mutex

  datatype State = State(pcs: seq<Pc>, readers: int, writers: int, held: bool)

  const HALF := 0x8000_0000
  const WORD := 0x1_0000_0000

  /** The value an atomic.Int32 shows after it has been moved to `x`. */
  function Wrap(x: int): int {
    (x + HALF) % WORD - HALF
  }

  function Init(n: nat): State {
    State(seq(n, _ => Idle), 0, 0, false)
  }

  function At(s: State, t: nat, pc: Pc): State
    requires t < |s.pcs|
  {
    s.(pcs := s.pcs[t := pc])
  }

  /** The mutex is held, or another thread is at it too. */
  ghost predicate Contended(s: State, t: nat) {
    s.held || exists u :: 0 <= u < |s.pcs| && u != t && s.pcs[u].WLock?
  }

  /**
   One atomic access of thread `t`.  A spin that fails and a mutex that is taken leave the state as it is.
   While several threads are at the mutex any of them may be turned away, as Go's Mutex allows.
   */
  ghost predicate Next(s: State, t: nat, s': State) {
    t < |s.pcs| &&
    match s.pcs[t]
    case Idle =>
      s' in {At(s, t, RLoad(false)), At(s, t, RLoad(true)), At(s, t, WLock(false)), At(s, t, WLock(true))}
    case RLoad(try) =>
      if s.writers > 0 then s' == if try then At(s, t, Idle) else s
      else s' == At(s, t, RAdd(try))
    case RAdd(try) =>
      s' == At(s, t, RCheck(try)).(readers := Wrap(s.readers + 1))
    case RCheck(try) =>
      var pass := if try then s.writers <= 0 else s.writers == 0;
      s' == At(s, t, if pass then RIn else RBack(try))
    case RBack(try) =>
      s' == At(s, t, if try then Idle else RLoad(false)).(readers := Wrap(s.readers - 1))
    case RIn =>
      s' == At(s, t, Idle).(readers := Wrap(s.readers - 1))
    case WLock(try) =>
      || (Contended(s, t) && s' == if try then At(s, t, Idle) else s)
      || (!s.held && s' == At(s, t, WAdd(try)).(held := true))
    case WAdd(try) =>
      s' == At(s, t, WCheck(try)).(writers := Wrap(s.writers + 1))
    case WCheck(try) =>
      if s.readers > 0 then s' == if try then At(s, t, WBack) else s
      else s' == At(s, t, WIn)
    case WBack =>
      s' == At(s, t, WRelease).(writers := Wrap(s.writers - 1))
    case WIn =>
      s' == At(s, t, WRelease).(writers := Wrap(s.writers - 1))
    case WRelease =>
      s' == At(s, t, Idle).(held := false)
  }

  ghost predicate Steps(s: State, s': State) {
    exists t: nat :: Next(s, t, s')
  }

  /** A run of `n` threads: any interleaving of their accesses, from all idle. */
  ghost predicate IsRun(n: nat, run: seq<State>) {
    && |run| > 0
    && run[0] == Init(n)
    && forall i :: 0 < i < |run| ==> Steps(run[i - 1], run[i])
  }

  /** What a read-write lock is for. */
  ghost predicate Exclusive(s: State) {
    forall i, j :: 0 <= i < |s.pcs| && 0 <= j < |s.pcs| && i != j && s.pcs[i] == WIn ==>
      s.pcs[j] != WIn && s.pcs[j] != RIn
  }

  // ---------- counting threads by program point ----------

  /** Has added itself to `readers` and not yet taken it back. */
  predicate Reading(pc: Pc) { pc.RCheck? || pc.RBack? || pc.RIn? }

  /** Has added itself to `writers` and not yet taken it back. */
  predicate Writing(pc: Pc) { pc.WCheck? || pc.WBack? || pc.WIn? }

  /** Holds the mutex. */
  predicate Holding(pc: Pc) { pc.WAdd? || Writing(pc) || pc.WRelease? }

  function Count(pcs: seq<Pc>, p: Pc -> bool): (c: nat)
    ensures c <= |pcs|
  {
    if pcs == [] then 0 else (if p(pcs[0]) then 1 else 0) + Count(pcs[1..], p)
  }

  lemma {:induction false} CountUpdate(pcs: seq<Pc>, t: nat, pc: Pc, p: Pc -> bool)
    requires t < |pcs|
    ensures Count(pcs[t := pc], p) ==
            Count(pcs, p) - (if p(pcs[t]) then 1 else 0) + (if p(pc) then 1 else 0)
  {
    if t == 0 {
      assert pcs[t := pc][1..] == pcs[1..];
    } else {
      assert pcs[t := pc][1..] == pcs[1..][t - 1 := pc];
      CountUpdate(pcs[1..], t - 1, pc, p);
    }
  }

  /** Two threads at points that satisfy `p` count as two; a thread at a point that does not leaves room. */
  lemma {:induction false} CountWitness(pcs: seq<Pc>, i: nat, j: nat, p: Pc -> bool)
    requires i < |pcs| && j < |pcs|
    ensures p(pcs[i]) ==> Count(pcs, p) >= 1
    ensures i != j && p(pcs[i]) && p(pcs[j]) ==> Count(pcs, p) >= 2
    ensures !p(pcs[i]) ==> Count(pcs, p) < |pcs|
  {
    if i > 0 && j > 0 {
      CountWitness(pcs[1..], i - 1, j - 1, p);
    } else if i > 0 {
      CountWitness(pcs[1..], i - 1, i - 1, p);
    } else if j > 0 {
      CountWitness(pcs[1..], j - 1, j - 1, p);
    }
  }

  lemma {:induction false} CountOfUniform(n: nat, k: nat, p: Pc -> bool)
    requires k <= n
    ensures Count(seq(n, i requires i >= 0 => if i < k then RIn else Idle), p) ==
            k * (if p(RIn) then 1 else 0) + (n - k) * (if p(Idle) then 1 else 0)
  {
    if n > 0 {
      var pcs := seq(n, i requires i >= 0 => if i < k then RIn else Idle);
      var k' := if k == 0 then 0 else k - 1;
      assert pcs[1..] == seq(n - 1, i requires i >= 0 => if i < k' then RIn else Idle);
      CountOfUniform(n - 1, k', p);
    }
  }

  // ---------- the invariant ----------

  /** Both counters count exactly the threads at the matching points, and the mutex counts its holder. */
  ghost predicate CountersAgree(s: State) {
    && s.readers == Wrap(Count(s.pcs, Reading))
    && s.writers == Count(s.pcs, Writing)
    && Count(s.pcs, Holding) == if s.held then 1 else 0
  }

  ghost predicate NoReaderBesideWriter(s: State) {
    forall i, j :: 0 <= i < |s.pcs| && 0 <= j < |s.pcs| && s.pcs[i] == WIn ==> s.pcs[j] != RIn
  }

  lemma {:induction false} WritersHold(pcs: seq<Pc>)
    ensures Count(pcs, Writing) <= Count(pcs, Holding)
  {
    if pcs != [] { WritersHold(pcs[1..]); }
  }

  lemma InitAgrees(n: nat)
    ensures CountersAgree(Init(n))
  {
    assert Init(n).pcs == seq(n, i requires i >= 0 => if i < 0 then RIn else Idle);
    CountOfUniform(n, 0, Reading);
    CountOfUniform(n, 0, Writing);
    CountOfUniform(n, 0, Holding);
  }

  lemma WrapAdd(x: int, d: int)
    requires -1 <= d <= 1
    ensures Wrap(Wrap(x) + d) == Wrap(x + d)
  {
    var q := (x + HALF) / WORD;
    assert x + HALF == q * WORD + (x + HALF) % WORD;
  }

  function One(b: bool): nat { if b then 1 else 0 }

  /** A step changes the reader counter by what it changes of the thread's standing. */
  lemma ReadersMove(s: State, t: nat, s': State)
    requires Next(s, t, s')
    ensures |s'.pcs| == |s.pcs| && s'.pcs == s.pcs[t := s'.pcs[t]]
    ensures var d := One(Reading(s'.pcs[t])) - One(Reading(s.pcs[t]));
            s'.readers == if d == 0 then s.readers else Wrap(s.readers + d)
  {
  }

  lemma StepReaders(s: State, t: nat, s': State)
    requires s.readers == Wrap(Count(s.pcs, Reading)) && Next(s, t, s')
    ensures s'.readers == Wrap(Count(s'.pcs, Reading)) && |s'.pcs| == |s.pcs|
  {
    ReadersMove(s, t, s');
    CountUpdate(s.pcs, t, s'.pcs[t], Reading);
    WrapAdd(Count(s.pcs, Reading), One(Reading(s'.pcs[t])) - One(Reading(s.pcs[t])));
  }

  lemma HolderMoves(s: State, t: nat, s': State)
    requires Next(s, t, s') && (Holding(s.pcs[t]) ==> s.held)
    ensures |s'.pcs| == |s.pcs| && s'.pcs == s.pcs[t := s'.pcs[t]]
    ensures One(s'.held) == One(s.held) - One(Holding(s.pcs[t])) + One(Holding(s'.pcs[t]))
  {
  }

  lemma StepHolder(s: State, t: nat, s': State)
    requires CountersAgree(s) && Next(s, t, s')
    ensures Count(s'.pcs, Holding) == if s'.held then 1 else 0
  {
    CountWitness(s.pcs, t, t, Holding);
    HolderMoves(s, t, s');
    CountUpdate(s.pcs, t, s'.pcs[t], Holding);
  }

  lemma StepWriters(s: State, t: nat, s': State)
    requires CountersAgree(s) && Next(s, t, s')
    ensures s'.writers == Count(s'.pcs, Writing)
  {
    if s' != s {
      var pc := s'.pcs[t];
      assert s'.pcs == s.pcs[t := pc];
      CountUpdate(s.pcs, t, pc, Writing);
      CountWitness(s.pcs, t, t, Writing);
      WritersHold(s.pcs);
      assert forall x :: -1 <= x <= 2 ==> Wrap(x) == x;
    }
  }

  lemma StepAgrees(s: State, t: nat, s': State)
    requires CountersAgree(s) && Next(s, t, s')
    ensures CountersAgree(s') && |s'.pcs| == |s.pcs|
  {
    StepReaders(s, t, s');
    StepWriters(s, t, s');
    StepHolder(s, t, s');
  }

  /** The one step of the proof that is about two threads: each side looks only after it has announced itself. */
  lemma StepKeepsReadersOut(s: State, t: nat, s': State)
    requires CountersAgree(s) && NoReaderBesideWriter(s) && Next(s, t, s')
    requires |s.pcs| <= HALF
    ensures NoReaderBesideWriter(s')
  {
    forall i, j | 0 <= i < |s'.pcs| && 0 <= j < |s'.pcs| && s'.pcs[i] == WIn
      ensures s'.pcs[j] != RIn
    {
      if s'.pcs[j] == RIn {
        if i == t {
          CountWitness(s.pcs, t, t, Reading);
          CountWitness(s.pcs, j, j, Reading);
        } else {
          CountWitness(s.pcs, i, i, Writing);
        }
      }
    }
  }

  lemma OneWriter(s: State)
    requires CountersAgree(s)
    ensures forall i, j :: 0 <= i < |s.pcs| && 0 <= j < |s.pcs| && s.pcs[i] == WIn && s.pcs[j] == WIn ==> i == j
  {
    forall i, j | 0 <= i < |s.pcs| && 0 <= j < |s.pcs| && s.pcs[i] == WIn && s.pcs[j] == WIn
      ensures i == j
    {
      CountWitness(s.pcs, i, j, Holding);
    }
  }

  /** In every run of any number of threads the counters count the threads at the matching points. */
  lemma {:induction false} CountersExact(n: nat, run: seq<State>)
    requires IsRun(n, run)
    ensures forall i :: 0 <= i < |run| ==> |run[i].pcs| == n && CountersAgree(run[i])
  {
    if |run| == 1 {
      InitAgrees(n);
    } else {
      var before := run[..|run| - 1];
      CountersExact(n, before);
      var last := before[|before| - 1];
      assert Steps(last, run[|run| - 1]);
      var t: nat :| Next(last, t, run[|run| - 1]);
      StepAgrees(last, t, run[|run| - 1]);
    }
  }

  /** Safety of every interleaving, for every number of threads up to 2^31. */
  lemma {:induction false} MutualExclusion(n: nat, run: seq<State>)
    requires IsRun(n, run) && n <= HALF
    ensures forall i :: 0 <= i < |run| ==> Exclusive(run[i]) && NoReaderBesideWriter(run[i])
  {
    CountersExact(n, run);
    if |run| > 1 {
      var before := run[..|run| - 1];
      MutualExclusion(n, before);
      var last := before[|before| - 1];
      assert Steps(last, run[|run| - 1]);
      var t: nat :| Next(last, t, run[|run| - 1]);
      StepKeepsReadersOut(last, t, run[|run| - 1]);
    }
    OneWriter(run[|run| - 1]);
  }

  // ---------- who gets in ----------

  lemma {:induction false} CountNone(pcs: seq<Pc>, p: Pc -> bool)
    ensures Count(pcs, p) == 0 <==> forall u :: 0 <= u < |pcs| ==> !p(pcs[u])
  {
    if pcs != [] {
      CountNone(pcs[1..], p);
      if u :| 0 <= u < |pcs| && p(pcs[u]) { CountWitness(pcs, u, u, p); }
    }
  }

  ghost predicate NobodyElse(s: State, t: nat, p: Pc -> bool) {
    forall u :: 0 <= u < |s.pcs| && u != t ==> !p(s.pcs[u])
  }

  /** Reachable with few enough threads, as far as the counters tell. */
  ghost predicate Sound(s: State) {
    CountersAgree(s) && |s.pcs| <= HALF
  }

  /** The reader counter is positive exactly when a thread has announced itself as a reader. */
  lemma ReadersShow(s: State, t: nat)
    requires Sound(s) && t < |s.pcs| && !Reading(s.pcs[t])
    ensures s.readers > 0 <==> !NobodyElse(s, t, Reading)
  {
    CountNone(s.pcs, Reading);
    CountWitness(s.pcs, t, t, Reading);
  }

  lemma WritersShow(s: State, t: nat)
    requires CountersAgree(s) && t < |s.pcs| && !Writing(s.pcs[t])
    ensures s.writers >= 0 && (s.writers > 0 <==> !NobodyElse(s, t, Writing))
  {
    CountNone(s.pcs, Writing);
  }

  /** A writer that looks goes in exactly when no thread is between announcing itself as a reader and leaving. */
  lemma WriterEntersExactly(n: nat, run: seq<State>, i: nat, t: nat, s': State)
    requires IsRun(n, run) && n <= HALF && i < |run| && Next(run[i], t, s') && run[i].pcs[t].WCheck?
    ensures s'.pcs[t] == WIn <==> NobodyElse(run[i], t, Reading)
    ensures s'.pcs[t] != WIn ==> s'.pcs[t] == if run[i].pcs[t].try then WBack else WCheck(false)
  {
    CountersExact(n, run);
    ReadersShow(run[i], t);
  }

  /** A reader that looks goes on exactly when no writer has announced itself; this holds for any number of threads. */
  lemma ReaderEntersExactly(n: nat, run: seq<State>, i: nat, t: nat, s': State)
    requires IsRun(n, run) && i < |run| && Next(run[i], t, s')
    ensures run[i].pcs[t].RLoad? ==> (s'.pcs[t].RAdd? <==> NobodyElse(run[i], t, Writing))
    ensures run[i].pcs[t].RCheck? ==> (s'.pcs[t] == RIn <==> NobodyElse(run[i], t, Writing))
    ensures run[i].pcs[t].RCheck? && s'.pcs[t] != RIn ==> s'.pcs[t] == RBack(run[i].pcs[t].try)
  {
    CountersExact(n, run);
    if !Writing(run[i].pcs[t]) { WritersShow(run[i], t); }
  }

  /** Neither holds the mutex nor is at it. */
  predicate AtMutex(pc: Pc) { Holding(pc) || pc.WLock? }

  lemma MutexFree(s: State, t: nat)
    requires CountersAgree(s) && t < |s.pcs| && s.pcs[t].WLock? && NobodyElse(s, t, AtMutex)
    ensures !Contended(s, t)
  {
    CountNone(s.pcs, Holding);
  }

  /**
   Lock and TryLock succeed, whatever the scheduler does with the thread, when no other thread reads, writes
   or is at the mutex.
   */
  lemma UncontendedWriterEnters(n: nat, run: seq<State>, i: nat, t: nat, try: bool, s1: State, s2: State, s3: State)
    requires IsRun(n, run) && n <= HALF && i < |run| && t < |run[i].pcs| && run[i].pcs[t] == WLock(try)
    requires NobodyElse(run[i], t, Reading) && NobodyElse(run[i], t, AtMutex)
    requires Next(run[i], t, s1) && Next(s1, t, s2) && Next(s2, t, s3)
    ensures s3.pcs == run[i].pcs[t := WIn]
  {
    CountersExact(n, run);
    MutexFree(run[i], t);
    StepAgrees(run[i], t, s1);
    StepAgrees(s1, t, s2);
    assert s2.pcs == run[i].pcs[t := WCheck(try)];
    ReadersShow(s2, t);
  }

  /** RLock and TryRLock succeed when no other thread writes. */
  lemma UncontendedReaderEnters(n: nat, run: seq<State>, i: nat, t: nat, try: bool, s1: State, s2: State, s3: State)
    requires IsRun(n, run) && i < |run| && t < |run[i].pcs| && run[i].pcs[t] == RLoad(try)
    requires NobodyElse(run[i], t, Writing)
    requires Next(run[i], t, s1) && Next(s1, t, s2) && Next(s2, t, s3)
    ensures s3.pcs == run[i].pcs[t := RIn]
  {
    CountersExact(n, run);
    WritersShow(run[i], t);
  }

  /** A call of `Lock` or `RLock` that has not returned. */
  predicate Blocking(pc: Pc) {
    (pc.RLoad? || pc.RAdd? || pc.RCheck? || pc.RBack? || pc.WLock? || pc.WAdd? || pc.WCheck?) && !pc.try
  }

  ghost predicate Calling(s: State, t: nat) {
    t < |s.pcs| && Blocking(s.pcs[t])
  }

  ghost predicate Inside(s: State, t: nat) {
    t < |s.pcs| && (s.pcs[t] == RIn || s.pcs[t] == WIn)
  }

  lemma StepBlocking(s: State, u: nat, s': State, t: nat)
    requires Next(s, u, s') && Calling(s, t)
    ensures Calling(s', t) || Inside(s', t)
  {
  }

  /** What one step does to a call of thread `t`. */
  ghost predicate GoesOn(s: State, s': State, t: nat) {
    Calling(s, t) ==> Calling(s', t) || Inside(s', t)
  }

  lemma StepGoesOn(s: State, s': State, t: nat)
    requires Steps(s, s')
    ensures GoesOn(s, s', t)
  {
    var u: nat :| Next(s, u, s');
    if Calling(s, t) { StepBlocking(s, u, s', t); }
  }

  lemma {:induction false} GoesOnUntilInside(run: seq<State>, i: nat, j: nat, t: nat)
    requires i <= j < |run| && Calling(run[i], t)
    requires forall k :: i < k <= j ==> GoesOn(run[k - 1], run[k], t)
    ensures Calling(run[j], t) || exists k :: i < k <= j && Inside(run[k], t)
  {
    if i < j { GoesOnUntilInside(run, i, j - 1, t); }
  }

  /** `Lock` and `RLock` return only inside: until then the call goes on. */
  lemma BlockingEndsInside(n: nat, run: seq<State>, i: nat, j: nat, t: nat)
    requires IsRun(n, run) && i <= j < |run| && Calling(run[i], t)
    ensures Calling(run[j], t) || exists k :: i < k <= j && Inside(run[k], t)
  {
    forall k | i < k <= j ensures GoesOn(run[k - 1], run[k], t) { StepGoesOn(run[k - 1], run[k], t); }
    GoesOnUntilInside(run, i, j, t);
  }

  /** While any call is going on or any thread is inside, some such thread can change the state: no deadlock. */
  lemma NeverStuck(n: nat, run: seq<State>, i: nat) returns (t: nat, s': State)
    requires IsRun(n, run) && n <= HALF && i < |run|
    requires exists u :: 0 <= u < |run[i].pcs| && run[i].pcs[u] != Idle
    ensures Next(run[i], t, s') && run[i].pcs[t] != Idle && s' != run[i]
  {
    CountersExact(n, run);
    var s := run[i];
    if u :| 0 <= u < n && !(s.pcs[u].Idle? || s.pcs[u].RLoad? || s.pcs[u].WLock? || s.pcs[u].WCheck?) {
      t := u;
      s' := Moved(s, t);
    } else if u :| 0 <= u < n && s.pcs[u].WCheck? {
      t, s' := u, At(s, u, WIn);
      ReadersShow(s, t);
    } else if u :| 0 <= u < n && s.pcs[u].RLoad? {
      t, s' := u, At(s, u, RAdd(s.pcs[u].try));
      WritersShow(s, t);
    } else {
      t :| 0 <= t < n && s.pcs[t] != Idle;
      s' := At(s, t, WAdd(s.pcs[t].try)).(held := true);
      CountNone(s.pcs, Holding);
    }
  }

  /** The step of a thread that waits for nobody. */
  function Moved(s: State, t: nat): (s': State)
    requires t < |s.pcs|
    requires !(s.pcs[t].Idle? || s.pcs[t].RLoad? || s.pcs[t].WLock? || s.pcs[t].WCheck?)
    ensures Next(s, t, s') && s' != s
  {
    assert s.pcs[t] == s.pcs[t := s.pcs[t]][t];
    match s.pcs[t]
    case RAdd(try) => At(s, t, RCheck(try)).(readers := Wrap(s.readers + 1))
    case RCheck(try) => At(s, t, if (if try then s.writers <= 0 else s.writers == 0) then RIn else RBack(try))
    case RBack(try) => At(s, t, if try then Idle else RLoad(false)).(readers := Wrap(s.readers - 1))
    case RIn => At(s, t, Idle).(readers := Wrap(s.readers - 1))
    case WAdd(try) => At(s, t, WCheck(try)).(writers := Wrap(s.writers + 1))
    case WBack => At(s, t, WRelease).(writers := Wrap(s.writers - 1))
    case WIn => At(s, t, WRelease).(writers := Wrap(s.writers - 1))
    case WRelease => At(s, t, Idle).(held := false)
  }

  // ---------- the bound is exact ----------

  function ReadersInside(n: nat, k: nat): State {
    State(seq(n, i requires i >= 0 => if i < k then RIn else Idle), Wrap(k), 0, false)
  }

  ghost predicate Reaches(n: nat, run: seq<State>, s: State) {
    IsRun(n, run) && run[|run| - 1] == s
  }

  lemma Extend(n: nat, run: seq<State>, s: State, t: nat, s': State) returns (longer: seq<State>)
    requires Reaches(n, run, s) && Next(s, t, s')
    ensures Reaches(n, longer, s')
  {
    assert Steps(s, s');
    longer := run + [s'];
  }

  lemma ReaderGoesIn(n: nat, run: seq<State>, s: State, t: nat, r: int) returns (longer: seq<State>)
    requires Reaches(n, run, s) && t < |s.pcs| && s.pcs[t] == Idle && s.writers == 0 && r == Wrap(s.readers + 1)
    ensures Reaches(n, longer, State(s.pcs[t := RIn], r, 0, s.held))
  {
    var s1 := At(s, t, RLoad(false));
    var s2 := At(s1, t, RAdd(false));
    var s3 := At(s2, t, RCheck(false)).(readers := r);
    longer := Extend(n, run, s, t, s1);
    longer := Extend(n, longer, s1, t, s2);
    longer := Extend(n, longer, s2, t, s3);
    longer := Extend(n, longer, s3, t, At(s3, t, RIn));
    assert At(s3, t, RIn).pcs == s.pcs[t := RIn];
  }

  /** Readers 0 to k-1 go in one after another; the counter wraps on the way. */
  lemma {:induction false} ReadersEnter(n: nat, k: nat) returns (run: seq<State>)
    requires k <= n
    ensures IsRun(n, run) && run[|run| - 1] == ReadersInside(n, k)
  {
    if k == 0 {
      run := [Init(n)];
      assert Init(n).pcs == ReadersInside(n, 0).pcs;
    } else {
      run := ReadersEnter(n, k - 1);
      WrapAdd(k - 1, 1);
      run := ReaderGoesIn(n, run, ReadersInside(n, k - 1), k - 1, Wrap(k));
      assert ReadersInside(n, k - 1).pcs[k - 1 := RIn] == ReadersInside(n, k).pcs;
    }
  }

  /** With one thread more than 2^31 the reader counter can wrap to a negative number and a writer walks in. */
  lemma WrapAdmitsWriter(n: nat) returns (run: seq<State>)
    requires n > HALF
    ensures IsRun(n, run) && !Exclusive(run[|run| - 1])
  {
    run := ReadersEnter(n, HALF);
    var t := HALF;
    var s := ReadersInside(n, HALF);
    var s1 := At(s, t, WLock(false));
    var s2 := At(s1, t, WAdd(false)).(held := true);
    var s3 := At(s2, t, WCheck(false)).(writers := 1);
    var s4 := At(s3, t, WIn);
    run := Extend(n, run, s, t, s1);
    run := Extend(n, run, s1, t, s2);
    run := Extend(n, run, s2, t, s3);
    run := Extend(n, run, s3, t, s4);
    assert s4.pcs[t] == WIn && s4.pcs[0] == RIn;
  }

  ghost predicate AlwaysExclusive(n: nat) {
    forall run: seq<State>, i :: IsRun(n, run) && 0 <= i < |run| ==> Exclusive(run[i])
  }

  /** The lock excludes in every run of `n` threads exactly when `n` is at most 2^31. */
  lemma ExclusiveExactly(n: nat)
    ensures AlwaysExclusive(n) <==> n <= HALF
  {
    if n <= HALF {
      forall run: seq<State>, i | IsRun(n, run) && 0 <= i < |run|
        ensures Exclusive(run[i])
      {
        MutualExclusion(n, run);
      }
    } else {
      var run := WrapAdmitsWriter(n);
    }
  }
}
