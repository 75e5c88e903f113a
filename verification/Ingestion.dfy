/**
 The ingestion engine of pkg/ingestion/ingestion.go while it is running: callers, flush timer and
 workers interleaved at their shared-memory steps.

 Threads below `callers` call `Ingest`; the others are the flush timer and the workers.  The
 batch mutex covers the append and the memory update of one caller and the swap of a flush, but
 not the memory check, so several callers may pass the check before any of them is counted.
 */
module Ingestion {

  datatype Point = Point(id: string, vector: seq<real>, payload: map<string, string>)

  function Estimate(p: Point): (mem: nat)
    ensures mem >= 64
  {
    64 + |p.id| + |p.vector| * 4 + |p.payload| * 64
  }

  type Batch = seq<Point>

  datatype Config = Config(callers: nat, largest: nat, maxMemory: nat, batchSize: nat, maxPending: nat)

  datatype Pc =
    | Idle
    | Checking(p: Point)      // estimated, in the memory loop
    | Passed(p: Point)        // the memory check succeeded
    | Appended(p: Point)      // mutex held, in the batch, not counted yet
    | Counted                 // mutex held, counted
    | Flushing                // about to swap the batch out
    | Holding(batch: Batch)   // swapped out, not sent yet
    | Processing(batch: Batch)
    | Released                // memory given back
    | Peaking(seen: int)      // memory read for the peak

  /** `accepted` and `processed` record the history; the engine itself keeps only their sizes. */
  datatype State = State(
    batch: Batch, locked: bool, queue: seq<Batch>, memory: int, peak: int, threads: seq<Pc>,
    accepted: multiset<Point>, processed: multiset<Point>)

  datatype Event =
    | Arrive(p: Point) | Check | GiveUp | Append | Count | Unlock
    | Tick | Swap | Send | Inline | Handoff(worker: nat) | Dequeue | Finish | ReadMemory | UpdatePeak

  // ---------- the steps ----------

  predicate Enabled(c: Config, s: State, i: nat, e: Event) {
    i < |s.threads| &&
    var pc := s.threads[i];
    match e
    case Arrive(p) => pc.Idle? && i < c.callers && Estimate(p) <= c.largest
    case Check => pc.Checking?
    case GiveUp => pc.Checking? && s.memory + Estimate(pc.p) > c.maxMemory
    case Append => pc.Passed? && !s.locked
    case Count => pc.Appended?
    case Unlock => pc.Counted?
    case Tick => pc.Idle? && i >= c.callers
    case Swap => pc.Flushing? && !s.locked
    case Send => pc.Holding? && |s.queue| < c.maxPending
    case Inline => pc.Holding? && |s.queue| >= c.maxPending
    case Handoff(j) => pc.Holding? && c.callers <= j < |s.threads| && s.threads[j].Idle? && s.queue == []
    case Dequeue => pc.Idle? && i >= c.callers && s.queue != []
    case Finish => pc.Processing?
    case ReadMemory => pc.Released?
    case UpdatePeak => pc.Peaking?
  }

  function At(s: State, i: nat, pc: Pc): State
    requires i < |s.threads|
  {
    s.(threads := s.threads[i := pc])
  }

  function Do(c: Config, s: State, i: nat, e: Event): State
    requires Enabled(c, s, i, e)
  {
    var pc := s.threads[i];
    match e
    case Arrive(p) => At(s, i, Checking(p))
    case Check => if s.memory + Estimate(pc.p) > c.maxMemory then s else At(s, i, Passed(pc.p))
    case GiveUp => At(s, i, Idle)
    case Append =>
      At(s.(batch := s.batch + [pc.p], locked := true, accepted := s.accepted + multiset{pc.p}), i, Appended(pc.p))
    case Count => At(s.(memory := s.memory + Estimate(pc.p)), i, Counted)
    case Unlock => At(s.(locked := false), i, if |s.batch| >= c.batchSize then Flushing else Idle)
    case Tick => At(s, i, Flushing)
    case Swap => if s.batch == [] then At(s, i, Idle) else At(s.(batch := []), i, Holding(s.batch))
    case Send => At(s.(queue := s.queue + [pc.batch]), i, Idle)
    case Inline => At(s, i, Processing(pc.batch))
    case Handoff(j) => At(At(s, i, Idle), j, Processing(pc.batch))
    case Dequeue => At(s.(queue := s.queue[1..]), i, Processing(s.queue[0]))
    case Finish =>
      At(s.(memory := s.memory - Estimates(pc.batch), processed := s.processed + multiset(pc.batch)), i, Released)
    case ReadMemory => At(s, i, Peaking(s.memory))
    case UpdatePeak => At(if pc.seen <= s.peak then s else s.(peak := pc.seen), i, Idle)
  }

  /** The memory estimate of a batch. */
  function Estimates(b: Batch): nat {
    if b == [] then 0 else Estimates(b[..|b| - 1]) + Estimate(b[|b| - 1])
  }

  // ---------- runs ----------

  function Start(n: nat): State {
    State([], false, [], 0, 0, seq(n, _ => Idle), multiset{}, multiset{})
  }

  /** A schedule says which thread makes which step; a step that is not enabled is skipped. */
  type Schedule = seq<(nat, Event)>

  function Next(c: Config, s: State, i: nat, e: Event): State {
    if Enabled(c, s, i, e) then Do(c, s, i, e) else s
  }

  function Run(c: Config, n: nat, sched: Schedule): State {
    if sched == [] then Start(n)
    else Next(c, Run(c, n, sched[..|sched| - 1]), sched[|sched| - 1].0, sched[|sched| - 1].1)
  }

  // ---------- sums over threads ----------

  function Total(w: Pc -> int, ts: seq<Pc>): int {
    if ts == [] then 0 else Total(w, ts[..|ts| - 1]) + w(ts[|ts| - 1])
  }

  lemma {:induction false} TotalUpdate(w: Pc -> int, ts: seq<Pc>, i: nat, pc: Pc)
    requires i < |ts|
    ensures Total(w, ts[i := pc]) == Total(w, ts) - w(ts[i]) + w(pc)
  {
    var last := |ts| - 1;
    if i < last {
      TotalUpdate(w, ts[..last], i, pc);
      assert ts[i := pc][..last] == ts[..last][i := pc];
    } else {
      assert ts[i := pc][..last] == ts[..last];
    }
  }

  lemma {:induction false} TotalZero(w: Pc -> int, ts: seq<Pc>)
    requires forall i :: 0 <= i < |ts| ==> w(ts[i]) == 0
    ensures Total(w, ts) == 0
  {
    if ts != [] {
      TotalZero(w, ts[..|ts| - 1]);
    }
  }

  // ---------- the memory bound ----------

  /** What a caller that passed the check is going to add. */
  function Due(pc: Pc): int {
    if pc.Passed? || pc.Appended? then Estimate(pc.p) else 0
  }

  function Bound(c: Config): int {
    c.maxMemory + (c.callers - 1) * c.largest
  }

  ghost predicate Own(c: Config, i: nat, pc: Pc) {
    && (pc.Checking? || pc.Passed? || pc.Appended? ==> i < c.callers && Estimate(pc.p) <= c.largest)
    && (pc.Peaking? ==> pc.seen <= Bound(c))
  }

  ghost predicate Bounded(c: Config, s: State) {
    && (forall i :: 0 <= i < |s.threads| ==> Own(c, i, s.threads[i]))
    && s.memory + Total(Due, s.threads) <= Bound(c)
    && s.peak <= Bound(c)
  }

  /** How many of the first `n` threads are callers other than `i`. */
  function Others(c: Config, n: nat, i: nat): (k: nat)
    requires i < c.callers
    ensures k == (if n <= c.callers then n else c.callers) - if i < n then 1 else 0
  {
    if n == 0 then 0 else Others(c, n - 1, i) + if n - 1 < c.callers && n - 1 != i then 1 else 0
  }

  lemma OneMore(o: nat, m: nat)
    ensures (o + 1) * m == o * m + m
  {
  }

  lemma {:induction false} DueWithout(c: Config, ts: seq<Pc>, i: nat)
    requires i < c.callers
    requires forall j :: 0 <= j < |ts| ==> Own(c, j, ts[j])
    requires i < |ts| ==> Due(ts[i]) == 0
    ensures Total(Due, ts) <= Others(c, |ts|, i) * c.largest
  {
    if ts != [] {
      var last := |ts| - 1;
      DueWithout(c, ts[..last], i);
      var o := Others(c, last, i);
      OneMore(o, c.largest);
    }
  }

  lemma TimesMost(a: nat, b: nat, m: nat)
    requires a <= b
    ensures a * m <= b * m
  {
  }

  /** While one caller owes nothing, the others owe at most `callers - 1` of the largest points. */
  lemma DueAtMost(c: Config, ts: seq<Pc>, i: nat)
    requires i < |ts| && i < c.callers && Due(ts[i]) == 0
    requires forall j :: 0 <= j < |ts| ==> Own(c, j, ts[j])
    ensures Total(Due, ts) <= (c.callers - 1) * c.largest
  {
    DueWithout(c, ts, i);
    TimesMost(Others(c, |ts|, i), c.callers - 1, c.largest);
  }

  /** A step of thread `i` that adds no more to the memory than the thread owed. */
  lemma BoundedAt(c: Config, s: State, s': State, i: nat, pc: Pc)
    requires Bounded(c, s) && i < |s.threads| && s'.threads == s.threads[i := pc]
    requires Own(c, i, pc) && s'.peak <= Bound(c)
    requires s'.memory + Due(pc) <= s.memory + Due(s.threads[i])
    ensures Bounded(c, s')
  {
    TotalUpdate(Due, s.threads, i, pc);
  }

  lemma BoundedCheck(c: Config, s: State, i: nat)
    requires Bounded(c, s) && Enabled(c, s, i, Check)
    ensures Bounded(c, Do(c, s, i, Check))
  {
    var p := s.threads[i].p;
    if s.memory + Estimate(p) <= c.maxMemory {
      DueAtMost(c, s.threads, i);
      TotalUpdate(Due, s.threads, i, Passed(p));
    }
  }

  lemma MemoryNow(c: Config, s: State)
    requires Bounded(c, s)
    ensures s.memory <= Bound(c)
  {
    DueNotNegative(s.threads);
  }

  lemma {:induction false} DueNotNegative(ts: seq<Pc>)
    ensures Total(Due, ts) >= 0
  {
    if ts != [] { DueNotNegative(ts[..|ts| - 1]); }
  }

  lemma BoundedStep(c: Config, s: State, i: nat, e: Event)
    requires Bounded(c, s) && Enabled(c, s, i, e)
    ensures Bounded(c, Do(c, s, i, e))
  {
    MemoryNow(c, s);
    var s' := Do(c, s, i, e);
    match e {
      case Check => BoundedCheck(c, s, i);
      case Handoff(j) =>
        var mid := At(s, i, Idle);
        BoundedAt(c, s, mid, i, Idle);
        BoundedAt(c, mid, s', j, s'.threads[j]);
      case _ => BoundedAt(c, s, s', i, s'.threads[i]);
    }
  }

  lemma {:induction false} RunBounded(c: Config, n: nat, sched: Schedule)
    requires c.callers >= 1
    ensures Bounded(c, Run(c, n, sched))
  {
    if sched == [] {
      TotalZero(Due, Start(n).threads);
      TimesMost(0, c.callers - 1, c.largest);
    } else {
      var init, last := sched[..|sched| - 1], sched[|sched| - 1];
      RunBounded(c, n, init);
      if Enabled(c, Run(c, n, init), last.0, last.1) {
        BoundedStep(c, Run(c, n, init), last.0, last.1);
      }
    }
  }

  /** However the threads are scheduled, tracked memory exceeds the limit by at most one point per other caller. */
  lemma MemoryBound(c: Config, n: nat, sched: Schedule)
    requires c.callers >= 1
    ensures Run(c, n, sched).memory <= Bound(c) && Run(c, n, sched).peak <= Bound(c)
  {
    RunBounded(c, n, sched);
    MemoryNow(c, Run(c, n, sched));
  }

  // ---------- the bound is reached ----------

  lemma RunNext(c: Config, n: nat, sched: Schedule, i: nat, e: Event)
    ensures Run(c, n, sched + [(i, e)]) == Next(c, Run(c, n, sched), i, e)
  {
    assert (sched + [(i, e)])[..|sched|] == sched;
  }

  /** The points `ps` lie in the batch, counted, and every thread is idle. */
  ghost predicate Filled(s: State, n: nat, ps: Batch) {
    && |s.threads| == n && s.memory == Estimates(ps) && |s.batch| == |ps| && !s.locked
    && (forall i :: 0 <= i < n ==> s.threads[i] == Idle)
  }

  /** The point `p` is with caller 0, at the given place; everything else is as in `Filled`. */
  ghost predicate Filling(s: State, n: nat, mem: int, size: nat, locked: bool, pc: Pc) {
    && |s.threads| == n > 0 && s.memory == mem && |s.batch| == size && s.locked == locked
    && s.threads[0] == pc && (forall i :: 0 < i < n ==> s.threads[i] == Idle)
  }

  lemma FillEnter(c: Config, s: State, n: nat, mem: int, size: nat, p: Point)
    requires 1 <= c.callers && Filling(s, n, mem, size, false, Idle)
    requires Estimate(p) <= c.largest && mem + Estimate(p) <= c.maxMemory
    ensures Filling(Next(c, Next(c, s, 0, Arrive(p)), 0, Check), n, mem, size, false, Passed(p))
  {
    assert Filling(Next(c, s, 0, Arrive(p)), n, mem, size, false, Checking(p));
  }

  lemma FillAppend(c: Config, s: State, n: nat, mem: int, size: nat, p: Point)
    requires Filling(s, n, mem, size, false, Passed(p))
    ensures Filling(Next(c, s, 0, Append), n, mem, size + 1, true, Appended(p))
  {
  }

  lemma FillCount(c: Config, s: State, n: nat, mem: int, size: nat, p: Point)
    requires Filling(s, n, mem, size, true, Appended(p))
    ensures Filling(Next(c, s, 0, Count), n, mem + Estimate(p), size, true, Counted)
  {
  }

  lemma FillUnlock(c: Config, s: State, n: nat, mem: int, size: nat)
    requires Filling(s, n, mem, size, true, Counted) && size < c.batchSize
    ensures Filling(Next(c, s, 0, Unlock), n, mem, size, false, Idle)
  {
  }

  /** One caller takes a point all the way in; the batch is not full yet. */
  lemma FillOne(c: Config, n: nat, ps: Batch, p: Point, before: Schedule) returns (sched: Schedule)
    requires 1 <= c.callers <= n && Filled(Run(c, n, before), n, ps) && |ps| + 1 < c.batchSize
    requires Estimate(p) <= c.largest && Estimates(ps) + Estimate(p) <= c.maxMemory
    ensures Filled(Run(c, n, sched), n, ps + [p])
  {
    var s1 := before + [(0, Arrive(p))];
    var s2 := s1 + [(0, Check)];
    var s3 := s2 + [(0, Append)];
    var s4 := s3 + [(0, Count)];
    RunNext(c, n, before, 0, Arrive(p));
    RunNext(c, n, s1, 0, Check);
    RunNext(c, n, s2, 0, Append);
    RunNext(c, n, s3, 0, Count);
    RunNext(c, n, s4, 0, Unlock);
    var mem, size := Estimates(ps), |ps|;
    FillEnter(c, Run(c, n, before), n, mem, size, p);
    FillAppend(c, Run(c, n, s2), n, mem, size, p);
    FillCount(c, Run(c, n, s3), n, mem, size + 1, p);
    FillUnlock(c, Run(c, n, s4), n, mem + Estimate(p), size + 1);
    sched := s4 + [(0, Unlock)];
    assert (ps + [p])[..|ps|] == ps;
  }

  lemma {:induction false} Fill(c: Config, n: nat, ps: Batch) returns (sched: Schedule)
    requires 1 <= c.callers <= n && (ps == [] || |ps| < c.batchSize)
    requires (forall p :: p in ps ==> Estimate(p) <= c.largest) && Estimates(ps) <= c.maxMemory
    ensures Filled(Run(c, n, sched), n, ps)
  {
    if ps == [] {
      sched := [];
    } else {
      var init, last := ps[..|ps| - 1], ps[|ps| - 1];
      var before := Fill(c, n, init);
      assert last in ps && ps == init + [last];
      sched := FillOne(c, n, init, last, before);
    }
  }

  /** The first `m` callers have passed the check, and nothing is counted beyond `mem`. */
  ghost predicate AllPassed(s: State, n: nat, m: nat, p: Point, mem: nat) {
    && |s.threads| == n && s.memory == mem && !s.locked
    && (forall i :: 0 <= i < n ==> s.threads[i] == if i < m then Passed(p) else Idle)
  }

  lemma PassOneState(c: Config, s: State, n: nat, m: nat, p: Point, mem: nat)
    requires m < c.callers <= n && Estimate(p) <= c.largest && mem + Estimate(p) <= c.maxMemory
    requires AllPassed(s, n, m, p, mem)
    ensures AllPassed(Next(c, Next(c, s, m, Arrive(p)), m, Check), n, m + 1, p, mem)
  {
    assert Next(c, s, m, Arrive(p)).threads[m] == Checking(p);
  }

  lemma PassOne(c: Config, n: nat, m: nat, p: Point, mem: nat, before: Schedule) returns (sched: Schedule)
    requires m < c.callers <= n && Estimate(p) <= c.largest && mem + Estimate(p) <= c.maxMemory
    requires AllPassed(Run(c, n, before), n, m, p, mem)
    ensures AllPassed(Run(c, n, sched), n, m + 1, p, mem)
  {
    RunNext(c, n, before, m, Arrive(p));
    RunNext(c, n, before + [(m, Arrive(p))], m, Check);
    sched := before + [(m, Arrive(p))] + [(m, Check)];
    PassOneState(c, Run(c, n, before), n, m, p, mem);
  }

  lemma {:induction false} PassAll(c: Config, n: nat, m: nat, p: Point, mem: nat,
        start: Schedule) returns (sched: Schedule)
    requires m <= c.callers <= n && Estimate(p) <= c.largest && mem + Estimate(p) <= c.maxMemory
    requires AllPassed(Run(c, n, start), n, 0, p, mem)
    ensures AllPassed(Run(c, n, sched), n, m, p, mem)
  {
    if m == 0 {
      sched := start;
    } else {
      var before := PassAll(c, n, m - 1, p, mem, start);
      sched := PassOne(c, n, m - 1, p, mem, before);
    }
  }

  function Times(m: nat, mem: nat): nat {
    if m == 0 then 0 else Times(m - 1, mem) + mem
  }

  lemma {:induction false} TimesIsProduct(m: nat, mem: nat)
    ensures Times(m, mem) == m * mem
  {
    if m > 0 {
      TimesIsProduct(m - 1, mem);
      assert m * mem == (m - 1) * mem + mem;
    }
  }

  /** The first `m` of the callers that passed are counted. */
  ghost predicate SomeCounted(c: Config, s: State, n: nat, m: nat, p: Point, mem: nat) {
    && |s.threads| == n && c.callers <= n && s.memory == mem + Times(m, Estimate(p)) && !s.locked
    && (forall i :: m <= i < c.callers ==> s.threads[i] == Passed(p))
  }

  lemma CountOneState(c: Config, s: State, n: nat, m: nat, p: Point, mem: nat)
    requires m < c.callers <= n && SomeCounted(c, s, n, m, p, mem)
    ensures SomeCounted(c, Next(c, Next(c, Next(c, s, m, Append), m, Count), m, Unlock), n, m + 1, p, mem)
  {
    var s1 := Next(c, s, m, Append);
    assert s1.threads[m] == Appended(p);
    var s2 := Next(c, s1, m, Count);
    assert s2.threads[m] == Counted && s2.memory == mem + Times(m + 1, Estimate(p));
  }

  lemma CountOne(c: Config, n: nat, m: nat, p: Point, mem: nat,
        before: Schedule) returns (sched: Schedule)
    requires m < c.callers <= n && SomeCounted(c, Run(c, n, before), n, m, p, mem)
    ensures SomeCounted(c, Run(c, n, sched), n, m + 1, p, mem)
  {
    RunNext(c, n, before, m, Append);
    RunNext(c, n, before + [(m, Append)], m, Count);
    RunNext(c, n, before + [(m, Append)] + [(m, Count)], m, Unlock);
    sched := before + [(m, Append)] + [(m, Count)] + [(m, Unlock)];
    CountOneState(c, Run(c, n, before), n, m, p, mem);
  }

  lemma {:induction false} CountAll(c: Config, n: nat, m: nat, p: Point, mem: nat,
        start: Schedule) returns (sched: Schedule)
    requires m <= c.callers <= n && AllPassed(Run(c, n, start), n, c.callers, p, mem)
    ensures SomeCounted(c, Run(c, n, sched), n, m, p, mem)
  {
    if m == 0 {
      sched := start;
    } else {
      var before := CountAll(c, n, m - 1, p, mem, start);
      sched := CountOne(c, n, m - 1, p, mem, before);
    }
  }

  /**
   No smaller bound holds.  Whenever points that fit into one batch fill the memory up to one largest point, all
   callers can pass the check for that last point together.
   */
  lemma BoundIsReached(c: Config, n: nat, ps: Batch, p: Point) returns (sched: Schedule)
    requires 1 <= c.callers <= n && (ps == [] || |ps| < c.batchSize)
    requires forall q :: q in ps ==> Estimate(q) <= c.largest
    requires Estimate(p) == c.largest && Estimates(ps) + Estimate(p) == c.maxMemory
    ensures Run(c, n, sched).memory == c.maxMemory + (c.callers - 1) * c.largest
  {
    var filled := Fill(c, n, ps);
    var passed := PassAll(c, n, c.callers, p, Estimates(ps), filled);
    sched := CountAll(c, n, c.callers, p, Estimates(ps), passed);
    TimesIsProduct(c.callers - 1, Estimate(p));
  }

  // ---------- where the memory is ----------

  /** In a batch already, but not counted yet. */
  function Uncounted(pc: Pc): int {
    if pc.Appended? then Estimate(pc.p) else 0
  }

  /** The batch a thread has in hand. */
  function BatchOf(pc: Pc): Batch {
    if pc.Holding? || pc.Processing? then pc.batch else []
  }

  function Held(pc: Pc): int {
    Estimates(BatchOf(pc))
  }

  function Queued(queue: seq<Batch>): nat {
    if queue == [] then 0 else Queued(queue[..|queue| - 1]) + Estimates(queue[|queue| - 1])
  }

  lemma {:induction false} QueuedFirst(queue: seq<Batch>)
    requires queue != []
    ensures Queued(queue) == Estimates(queue[0]) + Queued(queue[1..])
  {
    if |queue| > 1 {
      QueuedFirst(queue[..|queue| - 1]);
      assert queue[..|queue| - 1][1..] == queue[1..][..|queue| - 2];
    }
  }

  /** The estimates of everything in the current batch, in the queue and in hand. */
  function Present(s: State): int {
    Estimates(s.batch) + Queued(s.queue) + Total(Held, s.threads)
  }

  ghost predicate Counts(s: State) {
    s.memory + Total(Uncounted, s.threads) == Present(s)
  }

  lemma CountsAt(s: State, s': State, i: nat, pc: Pc)
    requires Counts(s) && i < |s.threads| && s'.threads == s.threads[i := pc]
    requires s'.memory + Uncounted(pc) + Estimates(s.batch) + Queued(s.queue) + Held(s.threads[i])
          == s.memory + Uncounted(s.threads[i]) + Estimates(s'.batch) + Queued(s'.queue) + Held(pc)
    ensures Counts(s')
  {
    TotalUpdate(Uncounted, s.threads, i, pc);
    TotalUpdate(Held, s.threads, i, pc);
  }

  /** Steps that move no point and no memory. */
  predicate Quiet(e: Event) {
    e.Arrive? || e.Check? || e.GiveUp? || e.Unlock? || e.Tick? || e.Inline? || e.ReadMemory? || e.UpdatePeak?
  }

  lemma QuietStep(c: Config, s: State, i: nat, e: Event)
    requires Enabled(c, s, i, e) && Quiet(e)
    ensures var s' := Do(c, s, i, e);
            s'.memory == s.memory && s'.batch == s.batch && s'.queue == s.queue
            && s'.accepted == s.accepted && s'.processed == s.processed
            && s'.threads == s.threads[i := s'.threads[i]]
            && Uncounted(s'.threads[i]) == Uncounted(s.threads[i])
            && Held(s'.threads[i]) == Held(s.threads[i])
            && BatchOf(s'.threads[i]) == BatchOf(s.threads[i])
  {
  }

  lemma CountsAppend(c: Config, s: State, i: nat)
    requires Counts(s) && Enabled(c, s, i, Append)
    ensures Counts(Do(c, s, i, Append))
  {
    var s' := Do(c, s, i, Append);
    assert s'.batch[..|s.batch|] == s.batch;
    CountsAt(s, s', i, Appended(s.threads[i].p));
  }

  lemma CountsSwap(c: Config, s: State, i: nat)
    requires Counts(s) && Enabled(c, s, i, Swap)
    ensures Counts(Do(c, s, i, Swap))
  {
    CountsAt(s, Do(c, s, i, Swap), i, if s.batch == [] then Idle else Holding(s.batch));
  }

  lemma CountsBatch(c: Config, s: State, i: nat, e: Event)
    requires Counts(s) && Enabled(c, s, i, e) && (e.Append? || e.Count? || e.Swap?)
    ensures Counts(Do(c, s, i, e))
  {
    match e
    case Append => CountsAppend(c, s, i);
    case Swap => CountsSwap(c, s, i);
    case Count => CountsAt(s, Do(c, s, i, Count), i, Counted);
  }

  lemma CountsQueue(c: Config, s: State, i: nat, e: Event)
    requires Counts(s) && Enabled(c, s, i, e) && (e.Send? || e.Dequeue? || e.Finish?)
    ensures Counts(Do(c, s, i, e))
  {
    var s' := Do(c, s, i, e);
    if e.Send? { assert s'.queue[..|s.queue|] == s.queue; }
    if e.Dequeue? { QueuedFirst(s.queue); }
    CountsAt(s, s', i, s'.threads[i]);
  }

  lemma CountsStep(c: Config, s: State, i: nat, e: Event)
    requires Counts(s) && Enabled(c, s, i, e)
    ensures Counts(Do(c, s, i, e))
  {
    if Quiet(e) {
      QuietStep(c, s, i, e);
      CountsAt(s, Do(c, s, i, e), i, Do(c, s, i, e).threads[i]);
    } else if e.Handoff? {
      CountsHandoff(c, s, i, e.worker);
    } else if e.Append? || e.Count? || e.Swap? {
      CountsBatch(c, s, i, e);
    } else {
      CountsQueue(c, s, i, e);
    }
  }

  lemma CountsHandoff(c: Config, s: State, i: nat, j: nat)
    requires Counts(s) && Enabled(c, s, i, Handoff(j))
    ensures Counts(Do(c, s, i, Handoff(j)))
  {
    var ts, b := s.threads, s.threads[i].batch;
    TotalUpdate(Uncounted, ts, i, Idle);
    TotalUpdate(Held, ts, i, Idle);
    TotalUpdate(Uncounted, ts[i := Idle], j, Processing(b));
    TotalUpdate(Held, ts[i := Idle], j, Processing(b));
  }

  predicate Critical(pc: Pc) {
    pc.Appended? || pc.Counted?
  }

  /** The mutex is held exactly while one thread is between its append and its unlock. */
  ghost predicate OneCritical(s: State) {
    && (forall i :: 0 <= i < |s.threads| && Critical(s.threads[i]) ==> s.locked)
    && (forall i, j :: 0 <= i < j < |s.threads| ==> !(Critical(s.threads[i]) && Critical(s.threads[j])))
  }

  lemma OneCriticalStep(c: Config, s: State, i: nat, e: Event)
    requires OneCritical(s) && Enabled(c, s, i, e)
    ensures OneCritical(Do(c, s, i, e))
  {
  }

  lemma {:induction false} RunCounts(c: Config, n: nat, sched: Schedule)
    ensures Counts(Run(c, n, sched)) && OneCritical(Run(c, n, sched))
  {
    if sched == [] {
      TotalZero(Uncounted, Start(n).threads);
      TotalZero(Held, Start(n).threads);
    } else {
      var init, last := sched[..|sched| - 1], sched[|sched| - 1];
      RunCounts(c, n, init);
      if Enabled(c, Run(c, n, init), last.0, last.1) {
        CountsStep(c, Run(c, n, init), last.0, last.1);
        OneCriticalStep(c, Run(c, n, init), last.0, last.1);
      }
    }
  }

  lemma {:induction false} TotalOne(w: Pc -> int, ts: seq<Pc>, i: nat)
    requires i < |ts| && forall j :: 0 <= j < |ts| && j != i ==> w(ts[j]) == 0
    ensures Total(w, ts) == w(ts[i])
  {
    var last := |ts| - 1;
    if i < last {
      TotalOne(w, ts[..last], i);
    } else {
      TotalZero(w, ts[..last]);
    }
  }

  /**
   Tracked memory is what the current batch, the queue and the batches in hand add up to,
   except while a caller is between its append and its count: then it is short by that caller's
   point, and the mutex lets only one caller be there.
   */
  lemma MemoryIsPresent(c: Config, n: nat, sched: Schedule)
    ensures var s := Run(c, n, sched);
            && (forall i :: 0 <= i < |s.threads| && s.threads[i].Appended? ==>
                  s.locked && s.memory + Estimate(s.threads[i].p) == Present(s))
            && (forall i, j :: 0 <= i < j < |s.threads| ==> !(s.threads[i].Appended? && s.threads[j].Appended?))
            && ((forall i :: 0 <= i < |s.threads| ==> !s.threads[i].Appended?) ==> s.memory == Present(s))
  {
    RunCounts(c, n, sched);
    var s := Run(c, n, sched);
    if i :| 0 <= i < |s.threads| && s.threads[i].Appended? {
      assert forall j :: 0 <= j < |s.threads| && j != i ==> !s.threads[j].Appended?;
      TotalOne(Uncounted, s.threads, i);
    } else {
      TotalZero(Uncounted, s.threads);
    }
  }

  // ---------- where the points are ----------

  /** How often a point is in a batch. */
  function Copies(b: Batch, x: Point): nat {
    multiset(b)[x]
  }

  function QueuedCopies(queue: seq<Batch>, x: Point): nat {
    if queue == [] then 0 else QueuedCopies(queue[..|queue| - 1], x) + Copies(queue[|queue| - 1], x)
  }

  function InHand(x: Point): Pc -> int {
    pc => Copies(BatchOf(pc), x)
  }

  lemma {:induction false} QueuedCopiesFirst(queue: seq<Batch>, x: Point)
    requires queue != []
    ensures QueuedCopies(queue, x) == Copies(queue[0], x) + QueuedCopies(queue[1..], x)
  {
    if |queue| > 1 {
      QueuedCopiesFirst(queue[..|queue| - 1], x);
      assert queue[..|queue| - 1][1..] == queue[1..][..|queue| - 2];
    }
  }

  /** Copies of a point that no thread has in hand. */
  function Resting(s: State, x: Point): int {
    Copies(s.batch, x) + QueuedCopies(s.queue, x) + s.processed[x]
  }

  ghost predicate Kept(s: State, x: Point) {
    s.accepted[x] == Resting(s, x) + Total(InHand(x), s.threads)
  }

  lemma KeptAt(s: State, s': State, i: nat, pc: Pc, x: Point)
    requires Kept(s, x) && i < |s.threads| && s'.threads == s.threads[i := pc]
    requires s'.accepted[x] + Resting(s, x) + Copies(BatchOf(s.threads[i]), x)
          == s.accepted[x] + Resting(s', x) + Copies(BatchOf(pc), x)
    ensures Kept(s', x)
  {
    TotalUpdate(InHand(x), s.threads, i, pc);
  }

  lemma KeptBatch(c: Config, s: State, i: nat, e: Event, x: Point)
    requires Kept(s, x) && Enabled(c, s, i, e) && (e.Append? || e.Count? || e.Swap?)
    ensures Kept(Do(c, s, i, e), x)
  {
    var s' := Do(c, s, i, e);
    KeptAt(s, s', i, s'.threads[i], x);
  }

  lemma KeptQueue(c: Config, s: State, i: nat, e: Event, x: Point)
    requires Kept(s, x) && Enabled(c, s, i, e) && (e.Send? || e.Dequeue? || e.Finish?)
    ensures Kept(Do(c, s, i, e), x)
  {
    var s' := Do(c, s, i, e);
    if e.Send? { assert s'.queue[..|s.queue|] == s.queue; }
    if e.Dequeue? { QueuedCopiesFirst(s.queue, x); }
    KeptAt(s, s', i, s'.threads[i], x);
  }

  lemma KeptHandoff(c: Config, s: State, i: nat, j: nat, x: Point)
    requires Kept(s, x) && Enabled(c, s, i, Handoff(j))
    ensures Kept(Do(c, s, i, Handoff(j)), x)
  {
    var ts, b := s.threads, s.threads[i].batch;
    TotalUpdate(InHand(x), ts, i, Idle);
    TotalUpdate(InHand(x), ts[i := Idle], j, Processing(b));
  }

  lemma KeptStep(c: Config, s: State, i: nat, e: Event, x: Point)
    requires Kept(s, x) && Enabled(c, s, i, e)
    ensures Kept(Do(c, s, i, e), x)
  {
    if Quiet(e) {
      QuietStep(c, s, i, e);
      KeptAt(s, Do(c, s, i, e), i, Do(c, s, i, e).threads[i], x);
    } else if e.Handoff? {
      KeptHandoff(c, s, i, e.worker, x);
    } else if e.Append? || e.Count? || e.Swap? {
      KeptBatch(c, s, i, e, x);
    } else {
      KeptQueue(c, s, i, e, x);
    }
  }

  /**
   Every accepted point is in the current batch, in the queue, in the batch some thread has in
   hand, or processed, as often as it was accepted: none is lost and none is handed out twice.
   */
  lemma {:induction false} AcceptedAreKept(c: Config, n: nat, sched: Schedule, x: Point)
    ensures var s := Run(c, n, sched);
            s.accepted[x] == Copies(s.batch, x) + QueuedCopies(s.queue, x) + Total(InHand(x), s.threads) + s.processed[x]
  {
    if sched == [] {
      TotalZero(InHand(x), Start(n).threads);
    } else {
      var init, last := sched[..|sched| - 1], sched[|sched| - 1];
      AcceptedAreKept(c, n, init, x);
      var s := Run(c, n, init);
      if Enabled(c, s, last.0, last.1) {
        KeptStep(c, s, last.0, last.1, x);
      }
    }
  }

  // ---------- full batches are flushed ----------

  ghost predicate SomeThread(s: State, p: Pc -> bool) {
    exists i :: 0 <= i < |s.threads| && p(s.threads[i])
  }

  /** In the critical section, or about to swap the batch out. */
  predicate Attending(pc: Pc) { Critical(pc) || pc.Flushing? }

  /** A held mutex has a holder, and a full batch has a thread that is going to flush it. */
  ghost predicate Attended(c: Config, s: State) {
    && (s.locked ==> SomeThread(s, Critical))
    && (0 < c.batchSize <= |s.batch| ==> SomeThread(s, Attending))
  }

  lemma LockStep(c: Config, s: State, i: nat, e: Event)
    requires OneCritical(s) && (s.locked ==> SomeThread(s, Critical)) && Enabled(c, s, i, e)
    ensures var s' := Do(c, s, i, e); s'.locked ==> SomeThread(s', Critical)
  {
    var s' := Do(c, s, i, e);
    if e.Append? {
      assert Critical(s'.threads[i]);
    } else if s'.locked {
      var w :| 0 <= w < |s.threads| && Critical(s.threads[w]);
      assert w == i || s'.threads[w] == s.threads[w];
      assert Critical(s'.threads[w]);
    }
  }

  lemma FullStep(c: Config, s: State, i: nat, e: Event)
    requires Attended(c, s) && Enabled(c, s, i, e)
    ensures var s' := Do(c, s, i, e); 0 < c.batchSize <= |s'.batch| ==> SomeThread(s', Attending)
  {
    var s' := Do(c, s, i, e);
    if e.Append? {
      assert Attending(s'.threads[i]);
    } else if 0 < c.batchSize <= |s'.batch| {
      var w :| 0 <= w < |s.threads| && Attending(s.threads[w]);
      assert w == i || s'.threads[w] == s.threads[w];
      assert Attending(s'.threads[w]);
    }
  }

  lemma {:induction false} RunAttended(c: Config, n: nat, sched: Schedule)
    ensures Attended(c, Run(c, n, sched))
  {
    if sched != [] {
      var init, last := sched[..|sched| - 1], sched[|sched| - 1];
      RunAttended(c, n, init);
      RunCounts(c, n, init);
      if Enabled(c, Run(c, n, init), last.0, last.1) {
        LockStep(c, Run(c, n, init), last.0, last.1);
        FullStep(c, Run(c, n, init), last.0, last.1);
      }
    }
  }

  /** In every schedule, a full batch outside the critical section has a thread that is about to flush it. */
  lemma FullBatchIsFlushed(c: Config, n: nat, sched: Schedule)
    ensures var s := Run(c, n, sched);
            0 < c.batchSize <= |s.batch| ==>
              exists i :: 0 <= i < |s.threads| && (s.threads[i].Flushing? || (s.locked && Critical(s.threads[i])))
  {
    RunAttended(c, n, sched);
    RunCounts(c, n, sched);
    var s := Run(c, n, sched);
    if 0 < c.batchSize <= |s.batch| {
      var w :| 0 <= w < |s.threads| && Attending(s.threads[w]);
    }
  }

  // ---------- everything can be finished ----------

  /** How many steps a thread may still have before it. */
  function Rank(pc: Pc): int {
    match pc
    case Idle => 0
    case Peaking(_) => 1
    case Released => 2
    case Processing(_) => 3
    case Holding(_) => 5
    case Flushing => 6
    case Counted => 7
    case Appended(_) => 8
    case Passed(_) => 16
    case Checking(_) => 17
  }

  function Work(s: State): int {
    Total(Rank, s.threads) + 4 * |s.queue| + if s.batch == [] then 0 else 7
  }

  lemma {:induction false} WorkLeft(ts: seq<Pc>)
    ensures Total(Rank, ts) >= 0
    ensures Total(Rank, ts) == 0 ==> forall i :: 0 <= i < |ts| ==> ts[i].Idle?
  {
    if ts != [] {
      WorkLeft(ts[..|ts| - 1]);
      assert forall i :: 0 <= i < |ts| - 1 ==> ts[..|ts| - 1][i] == ts[i];
    }
  }

  /** The step that a busy thread takes next, when nobody stands in its way. */
  function Onward(c: Config, s: State, i: nat): Event
    requires i < |s.threads|
  {
    match s.threads[i]
    case Checking(p) => if s.memory + Estimate(p) > c.maxMemory then GiveUp else Check
    case Passed(_) => Append
    case Appended(_) => Count
    case Counted => Unlock
    case Flushing => Swap
    case Holding(_) => if |s.queue| < c.maxPending then Send else Inline
    case Processing(_) => Finish
    case Released => ReadMemory
    case Peaking(_) => UpdatePeak
    case Idle => Dequeue
  }

  /** A step of one thread leaves less work when it lowers the thread's rank by more than it adds elsewhere. */
  lemma WorkAt(s: State, s': State, i: nat, pc: Pc)
    requires i < |s.threads| && s'.threads == s.threads[i := pc]
    requires Rank(pc) + 4 * |s'.queue| + (if s'.batch == [] then 0 else 7)
           < Rank(s.threads[i]) + 4 * |s.queue| + if s.batch == [] then 0 else 7
    ensures Work(s') < Work(s)
  {
    TotalUpdate(Rank, s.threads, i, pc);
  }

  lemma OnwardIngests(c: Config, s: State, i: nat, e: Event)
    requires i < |s.threads| && e == Onward(c, s, i) && (s.locked ==> Critical(s.threads[i]))
    requires s.threads[i].Checking? || s.threads[i].Passed? || Critical(s.threads[i])
    ensures Enabled(c, s, i, e) && Work(Do(c, s, i, e)) < Work(s)
  {
    WorkAt(s, Do(c, s, i, e), i, Do(c, s, i, e).threads[i]);
  }

  lemma OnwardFlushes(c: Config, s: State, i: nat, e: Event)
    requires i < |s.threads| && e == Onward(c, s, i) && !s.locked
    requires s.threads[i].Flushing? || s.threads[i].Holding?
    ensures Enabled(c, s, i, e) && Work(Do(c, s, i, e)) < Work(s)
  {
    WorkAt(s, Do(c, s, i, e), i, Do(c, s, i, e).threads[i]);
  }

  lemma OnwardProcesses(c: Config, s: State, i: nat, e: Event)
    requires i < |s.threads| && e == Onward(c, s, i)
    requires s.threads[i].Processing? || s.threads[i].Released? || s.threads[i].Peaking?
    ensures Enabled(c, s, i, e) && Work(Do(c, s, i, e)) < Work(s)
  {
    WorkAt(s, Do(c, s, i, e), i, Do(c, s, i, e).threads[i]);
  }

  lemma OnwardWorks(c: Config, s: State, i: nat, e: Event)
    requires i < |s.threads| && !s.threads[i].Idle? && (s.locked ==> Critical(s.threads[i])) && e == Onward(c, s, i)
    ensures Enabled(c, s, i, e) && Work(Do(c, s, i, e)) < Work(s)
  {
    var pc := s.threads[i];
    if pc.Checking? || pc.Passed? || Critical(pc) {
      OnwardIngests(c, s, i, e);
    } else if pc.Flushing? || pc.Holding? {
      OnwardFlushes(c, s, i, e);
    } else {
      OnwardProcesses(c, s, i, e);
    }
  }

  /** A thread that can go on: one in the critical section if there is one, otherwise any that is busy. */
  lemma Mover(s: State) returns (i: nat)
    requires s.locked ==> SomeThread(s, Critical)
    requires exists k :: 0 <= k < |s.threads| && !s.threads[k].Idle?
    ensures i < |s.threads| && !s.threads[i].Idle? && (s.locked ==> Critical(s.threads[i]))
  {
    if s.locked {
      i :| 0 <= i < |s.threads| && Critical(s.threads[i]);
    } else {
      i :| 0 <= i < |s.threads| && !s.threads[i].Idle?;
    }
  }

  ghost predicate AllIdle(s: State) {
    forall i :: 0 <= i < |s.threads| ==> s.threads[i].Idle?
  }

  lemma DequeueWorks(c: Config, s: State, i: nat)
    requires c.callers <= i < |s.threads| && AllIdle(s) && s.queue != []
    ensures Enabled(c, s, i, Dequeue) && Work(Do(c, s, i, Dequeue)) < Work(s)
  {
    TotalUpdate(Rank, s.threads, i, Processing(s.queue[0]));
  }

  /** With nothing else to do, a tick and a swap take the batch out. */
  lemma FlushWorks(c: Config, s: State, i: nat)
    requires c.callers <= i < |s.threads| && AllIdle(s) && s.batch != [] && !s.locked
    ensures Enabled(c, s, i, Tick) && Enabled(c, Do(c, s, i, Tick), i, Swap)
    ensures Work(Do(c, Do(c, s, i, Tick), i, Swap)) < Work(s)
  {
    var s1 := Do(c, s, i, Tick);
    TotalUpdate(Rank, s.threads, i, Flushing);
    TotalUpdate(Rank, s1.threads, i, Holding(s.batch));
  }

  lemma NextThreads(c: Config, s: State, i: nat, e: Event)
    ensures |Next(c, s, i, e).threads| == |s.threads|
  {
  }

  lemma {:induction false} RunThreads(c: Config, n: nat, sched: Schedule)
    ensures |Run(c, n, sched).threads| == n
  {
    if sched != [] {
      var init, last := sched[..|sched| - 1], sched[|sched| - 1];
      RunThreads(c, n, init);
      NextThreads(c, Run(c, n, init), last.0, last.1);
    }
  }

  /** One or two more steps that leave less work. */
  lemma LessWork(c: Config, n: nat, sched: Schedule) returns (longer: Schedule)
    requires n > c.callers && !(AllIdle(Run(c, n, sched)) && Run(c, n, sched).queue == [] && Run(c, n, sched).batch == [])
    ensures Work(Run(c, n, longer)) < Work(Run(c, n, sched)) && sched <= longer
  {
    var s := Run(c, n, sched);
    RunThreads(c, n, sched);
    RunAttended(c, n, sched);
    if !AllIdle(s) {
      var i := Mover(s);
      OnwardWorks(c, s, i, Onward(c, s, i));
      RunNext(c, n, sched, i, Onward(c, s, i));
      longer := sched + [(i, Onward(c, s, i))];
    } else if s.queue != [] {
      DequeueWorks(c, s, c.callers);
      RunNext(c, n, sched, c.callers, Dequeue);
      longer := sched + [(c.callers, Dequeue)];
    } else {
      FlushWorks(c, s, c.callers);
      RunNext(c, n, sched, c.callers, Tick);
      RunNext(c, n, sched + [(c.callers, Tick)], c.callers, Swap);
      longer := sched + [(c.callers, Tick)] + [(c.callers, Swap)];
    }
  }

  lemma {:induction false} WorkOff(c: Config, n: nat, sched: Schedule) returns (longer: Schedule)
    requires n > c.callers
    ensures sched <= longer
    ensures var s := Run(c, n, longer); AllIdle(s) && s.queue == [] && s.batch == []
    decreases Work(Run(c, n, sched))
  {
    var s := Run(c, n, sched);
    WorkLeft(s.threads);
    if AllIdle(s) && s.queue == [] && s.batch == [] {
      longer := sched;
    } else {
      var next := LessWork(c, n, sched);
      longer := WorkOff(c, n, next);
    }
  }

  /**
   With a worker beside the callers the engine never gets stuck: every schedule can be continued until every
   accepted point is processed, as often as it was accepted, and no memory is tracked.
   */
  lemma EverythingCanFinish(c: Config, n: nat, sched: Schedule) returns (longer: Schedule)
    requires n > c.callers
    ensures sched <= longer
    ensures Run(c, n, longer).memory == 0
    ensures Run(c, n, longer).processed == Run(c, n, longer).accepted
  {
    longer := WorkOff(c, n, sched);
    var s := Run(c, n, longer);
    MemoryIsPresent(c, n, longer);
    TotalZero(Held, s.threads);
    forall x: Point ensures s.processed[x] == s.accepted[x] {
      AcceptedAreKept(c, n, longer, x);
      TotalZero(InHand(x), s.threads);
    }
  }

  // ---------- order ----------

  /** The points that are appended, the batches that are swapped out, put into the queue and taken out of it, in order. */
  datatype History = History(appended: Batch, swapped: seq<Batch>, sent: seq<Batch>, taken: seq<Batch>)

  function Recorded(c: Config, s: State, i: nat, e: Event, h: History): History {
    if !Enabled(c, s, i, e) then h
    else
      match e
      case Append => h.(appended := h.appended + [s.threads[i].p])
      case Swap => if s.batch == [] then h else h.(swapped := h.swapped + [s.batch])
      case Send => h.(sent := h.sent + [s.threads[i].batch])
      case Dequeue => h.(taken := h.taken + [s.queue[0]])
      case _ => h
  }

  function HistoryOf(c: Config, n: nat, sched: Schedule): History {
    if sched == [] then History([], [], [], [])
    else
      var init, last := sched[..|sched| - 1], sched[|sched| - 1];
      Recorded(c, Run(c, n, init), last.0, last.1, HistoryOf(c, n, init))
  }

  /** The points of several batches in a row. */
  function AllOf(bs: seq<Batch>): Batch {
    if bs == [] then [] else AllOf(bs[..|bs| - 1]) + bs[|bs| - 1]
  }

  /** Batches hold the points in the order they were appended, and leave the queue in the order they came into it. */
  ghost predicate InOrder(s: State, h: History) {
    h.appended == AllOf(h.swapped) + s.batch && h.sent == h.taken + s.queue
  }

  lemma OrderAppend(c: Config, s: State, i: nat, h: History)
    requires InOrder(s, h) && Enabled(c, s, i, Append)
    ensures InOrder(Do(c, s, i, Append), Recorded(c, s, i, Append, h))
  {
    assert h.appended + [s.threads[i].p] == AllOf(h.swapped) + (s.batch + [s.threads[i].p]);
  }

  lemma OrderSwap(c: Config, s: State, i: nat, h: History)
    requires InOrder(s, h) && Enabled(c, s, i, Swap)
    ensures InOrder(Do(c, s, i, Swap), Recorded(c, s, i, Swap, h))
  {
    assert (h.swapped + [s.batch])[..|h.swapped|] == h.swapped;
    assert AllOf(h.swapped + [s.batch]) == AllOf(h.swapped) + s.batch;
    assert AllOf(h.swapped) + s.batch + [] == AllOf(h.swapped) + s.batch;
  }

  lemma OrderQueue(c: Config, s: State, i: nat, e: Event, h: History)
    requires InOrder(s, h) && Enabled(c, s, i, e) && (e.Send? || e.Dequeue?)
    ensures InOrder(Do(c, s, i, e), Recorded(c, s, i, e, h))
  {
    if e.Send? {
      assert h.sent + [s.threads[i].batch] == h.taken + (s.queue + [s.threads[i].batch]);
    } else {
      assert h.taken + s.queue == (h.taken + [s.queue[0]]) + s.queue[1..];
    }
  }

  lemma OrderStep(c: Config, s: State, i: nat, e: Event, h: History)
    requires InOrder(s, h) && Enabled(c, s, i, e)
    ensures InOrder(Do(c, s, i, e), Recorded(c, s, i, e, h))
  {
    match e
    case Append => OrderAppend(c, s, i, h);
    case Swap => OrderSwap(c, s, i, h);
    case Send => OrderQueue(c, s, i, e, h);
    case Dequeue => OrderQueue(c, s, i, e, h);
    case _ =>
  }

  lemma {:induction false} OrderIsKept(c: Config, n: nat, sched: Schedule)
    ensures InOrder(Run(c, n, sched), HistoryOf(c, n, sched))
  {
    if sched != [] {
      var init, last := sched[..|sched| - 1], sched[|sched| - 1];
      OrderIsKept(c, n, init);
      if Enabled(c, Run(c, n, init), last.0, last.1) {
        OrderStep(c, Run(c, n, init), last.0, last.1, HistoryOf(c, n, init));
      }
    }
  }

  // ---------- the peak ----------

  /** The memory value, if any, that a step compares with the peak. */
  function Compared(s: State, i: nat, e: Event): seq<int> {
    if e.UpdatePeak? && i < |s.threads| && s.threads[i].Peaking? then [s.threads[i].seen] else []
  }

  /** All the values that a schedule compares with the peak. */
  function AllCompared(c: Config, n: nat, sched: Schedule): seq<int> {
    if sched == [] then []
    else
      var init, last := sched[..|sched| - 1], sched[|sched| - 1];
      AllCompared(c, n, init) + Compared(Run(c, n, init), last.0, last.1)
  }

  /** `peak` is the highest of the values, or zero when none is above zero. */
  ghost predicate IsPeak(peak: int, values: seq<int>) {
    && peak >= 0 && (peak == 0 || peak in values)
    && forall i :: 0 <= i < |values| ==> values[i] <= peak
  }

  lemma PeakNext(c: Config, s: State, i: nat, e: Event, values: seq<int>)
    requires IsPeak(s.peak, values)
    ensures IsPeak(Next(c, s, i, e).peak, values + Compared(s, i, e))
  {
    var all := values + Compared(s, i, e);
    assert forall k :: 0 <= k < |values| ==> all[k] == values[k];
    if Compared(s, i, e) != [] { assert all[|values|] == s.threads[i].seen; }
  }

  /** The recorded peak is the highest of the memory values compared with it. */
  lemma {:induction false} PeakIsHighest(c: Config, n: nat, sched: Schedule)
    ensures IsPeak(Run(c, n, sched).peak, AllCompared(c, n, sched))
  {
    if sched != [] {
      var init, last := sched[..|sched| - 1], sched[|sched| - 1];
      PeakIsHighest(c, n, init);
      PeakNext(c, Run(c, n, init), last.0, last.1, AllCompared(c, n, init));
    }
  }

  /** What a point is taken to weigh: a fixed part, its ID, four bytes a coordinate, and a fixed part a field. */
  lemma EstimateGrows(p: Point, ch: char, x: real, field: string, value: string)
    requires field !in p.payload
    ensures Estimate(Point("", [], map[])) == 64
    ensures Estimate(p.(id := p.id + [ch])) == Estimate(p) + 1
    ensures Estimate(p.(vector := p.vector + [x])) == Estimate(p) + 4
    ensures Estimate(p.(payload := p.payload[field := value])) == Estimate(p) + 64
  {
    assert |p.payload[field := value]| == |p.payload| + 1;
  }
}
