/**
 The per-client token bucket of api/rest/middleware.go.

 Times are seconds and numbers are reals; every operation is given the clock reading it would
 make under the limiter's lock.  The forced removal of the oldest entries, which happens only
 above one hundred thousand clients, is not part of this module.
 */
module TokenBucket {

  const ENTRY_TTL := 3600.0

  /** What the limiter knows about one client: nothing, or the tokens left by its last allowed request. */
  datatype Bucket = Fresh | Used(tokens: real, last: real)

  datatype Limits = Limits(rate: real, capacity: real)

  function Min(a: real, b: real): real { if a <= b then a else b }

  function Refill(lim: Limits, elapsed: real): real { elapsed * lim.rate }

  /** The tokens a request finds at time `now`. */
  function Level(lim: Limits, b: Bucket, now: real): (level: real)
    ensures level <= lim.capacity
  {
    match b
    case Fresh => lim.capacity
    case Used(tokens, last) => Min(tokens + Refill(lim, now - last), lim.capacity)
  }

  predicate Allowed(lim: Limits, b: Bucket, now: real) {
    Level(lim, b, now) >= 1.0
  }

  function Take(lim: Limits, b: Bucket, now: real): Bucket {
    if Allowed(lim, b, now) then Used(Level(lim, b, now) - 1.0, now) else b
  }

  function Expire(b: Bucket, now: real): Bucket {
    if b.Used? && now - b.last > ENTRY_TTL then Fresh else b
  }

  class RateLimiter {
    const limits: Limits
    var tokens: map<string, real>
    var lastAccess: map<string, real>

    ghost predicate Valid()
      reads this
    {
      tokens.Keys == lastAccess.Keys
    }

    /** The bucket of one client. */
    ghost function At(key: string): Bucket
      requires Valid()
      reads this
    {
      if key in tokens then Used(tokens[key], lastAccess[key]) else Fresh
    }

    constructor (rate: real, capacity: real)
      ensures Valid() && limits == Limits(rate, capacity)
      ensures forall key :: At(key) == Fresh
    {
      limits := Limits(rate, capacity);
      tokens, lastAccess := map[], map[];
    }

    method Allow(key: string, now: real) returns (ok: bool)
      requires Valid()
      modifies this
      ensures Valid()
      ensures ok == Allowed(limits, old(At(key)), now)
      ensures At(key) == Take(limits, old(At(key)), now)
      ensures forall other :: other != key ==> At(other) == old(At(other))
    {
      var left := if key in tokens then tokens[key] else limits.capacity;
      if key in lastAccess {
        var elapsed := now - lastAccess[key];
        left := Min(left + elapsed * limits.rate, limits.capacity);
      }
      if left < 1.0 {
        return false;
      }
      tokens := tokens[key := left - 1.0];
      lastAccess := lastAccess[key := now];
      return true;
    }

    /** One tick of the cleanup loop. */
    method Cleanup(now: real)
      requires Valid()
      modifies this
      ensures Valid()
      ensures forall key :: At(key) == Expire(old(At(key)), now)
      ensures forall key :: At(key) != old(At(key)) <==> old(At(key)).Used? && now > old(At(key)).last + 3600.0
    {
      var todo := lastAccess.Keys;
      while todo != {}
        invariant Valid()
        invariant forall key :: key in todo ==> At(key) == old(At(key)) && key in lastAccess
        invariant forall key :: key !in todo ==> At(key) == Expire(old(At(key)), now)
        decreases |todo|
      {
        var key :| key in todo;
        if now - lastAccess[key] > ENTRY_TTL {
          tokens := tokens - {key};
          lastAccess := lastAccess - {key};
        }
        todo := todo - {key};
      }
    }
  }

  // ---------- traces ----------

  datatype Op = Request(key: string, now: real) | Tick(now: real)

  /** What one operation does to the bucket of `key`. */
  function After(lim: Limits, key: string, b: Bucket, op: Op): Bucket {
    match op
    case Request(k, now) => if k == key then Take(lim, b, now) else b
    case Tick(now) => Expire(b, now)
  }

  /** The clock never goes back: no time in the trace is before `from`, nor before an earlier one. */
  predicate Ordered(from: real, ops: seq<Op>)
    decreases |ops|
  {
    ops == [] || (from <= ops[0].now && Ordered(ops[0].now, ops[1..]))
  }

  /** The answers that requests of `key` get. */
  function Answers(lim: Limits, key: string, b: Bucket, ops: seq<Op>): seq<bool>
    decreases |ops|
  {
    if ops == [] then []
    else
      (if ops[0].Request? && ops[0].key == key then [Allowed(lim, b, ops[0].now)] else [])
      + Answers(lim, key, After(lim, key, b, ops[0]), ops[1..])
  }

  /** The number of requests of `key` allowed at times between `s` and `t`. */
  function Granted(lim: Limits, key: string, b: Bucket, ops: seq<Op>, s: real, t: real): nat
    decreases |ops|
  {
    if ops == [] then 0
    else
      (if ops[0].Request? && ops[0].key == key && s <= ops[0].now <= t && Allowed(lim, b, ops[0].now) then 1 else 0)
      + Granted(lim, key, After(lim, key, b, ops[0]), ops[1..], s, t)
  }

  /** The same trace on a limiter that is never cleaned up. */
  function NoTicks(ops: seq<Op>): (r: seq<Op>)
    ensures forall i :: 0 <= i < |r| ==> r[i].Request?
  {
    if ops == [] then [] else (if ops[0].Tick? then [] else [ops[0]]) + NoTicks(ops[1..])
  }

  // ---------- the bound ----------

  /** Tokens gained per second; a negative rate gives none. */
  function Gain(lim: Limits): (g: real)
    ensures g >= 0.0 && g >= lim.rate
  {
    if lim.rate < 0.0 then 0.0 else lim.rate
  }

  lemma MulMono(a: real, b: real, x: real)
    requires a <= b && x >= 0.0
    ensures a * x <= b * x
  {
  }

  /** The most that a bucket can gain in `elapsed` seconds. */
  function Budget(lim: Limits, elapsed: real): real { Gain(lim) * elapsed }

  lemma BudgetNotNegative(lim: Limits, elapsed: real)
    requires elapsed >= 0.0
    ensures Budget(lim, elapsed) >= 0.0
  {
  }

  lemma BudgetAdds(lim: Limits, a: real, b: real, c: real)
    ensures Budget(lim, b - a) + Budget(lim, c - b) == Budget(lim, c - a)
  {
  }

  /** In `now - last` seconds a bucket gains no more than the rate allows. */
  lemma LevelGain(lim: Limits, b: Bucket, now: real)
    requires b.Used? && b.last <= now
    ensures Level(lim, b, now) <= b.tokens + Budget(lim, now - b.last)
  {
    MulMono(lim.rate, Gain(lim), now - b.last);
  }

  lemma {:induction false} NoneGranted(lim: Limits, key: string, b: Bucket, ops: seq<Op>, s: real, t: real, from: real)
    requires Ordered(from, ops) && t < from
    ensures Granted(lim, key, b, ops, s, t) == 0
    decreases |ops|
  {
    if ops != [] {
      NoneGranted(lim, key, After(lim, key, b, ops[0]), ops[1..], s, t, ops[0].now);
    }
  }

  /** From a bucket last used inside the window, grants are paid by its tokens and the refill. */
  lemma {:induction false} GrantedFromUsed(lim: Limits, key: string, b: Bucket, ops: seq<Op>, s: real, t: real,
        from: real)
    requires forall i :: 0 <= i < |ops| ==> ops[i].Request?
    requires b.Used? && b.last <= from && Ordered(from, ops) && b.last <= t
    ensures var n := Granted(lim, key, b, ops, s, t);
            n > 0 ==> n as real <= b.tokens + Budget(lim, t - b.last)
    decreases |ops|
  {
    if ops != [] {
      var now := ops[0].now;
      if ops[0].key != key || !Allowed(lim, b, now) {
        GrantedFromUsed(lim, key, b, ops[1..], s, t, now);
      } else if now <= t {
        var b' := Take(lim, b, now);
        GrantedFromUsed(lim, key, b', ops[1..], s, t, now);
        LevelGain(lim, b, now);
        BudgetAdds(lim, b.last, now, t);
        BudgetNotNegative(lim, t - now);
      } else {
        NoneGranted(lim, key, Take(lim, b, now), ops[1..], s, t, now);
      }
    }
  }

  lemma {:induction false} GrantedBound(lim: Limits, key: string, b: Bucket, ops: seq<Op>, s: real, t: real, from: real)
    requires forall i :: 0 <= i < |ops| ==> ops[i].Request?
    requires Ordered(from, ops) && s <= t
    ensures var n := Granted(lim, key, b, ops, s, t);
            n > 0 ==> n as real <= lim.capacity + Budget(lim, t - s)
    decreases |ops|
  {
    if ops != [] {
      var now := ops[0].now;
      var b' := After(lim, key, b, ops[0]);
      if s <= now <= t && ops[0].key == key && Allowed(lim, b, now) {
        GrantedFromUsed(lim, key, b', ops[1..], s, t, now);
        BudgetAdds(lim, s, now, t);
        BudgetNotNegative(lim, now - s);
        BudgetNotNegative(lim, t - now);
      } else {
        GrantedBound(lim, key, b', ops[1..], s, t, now);
      }
    }
  }

  // ---------- cleaning up ----------

  /** A bucket and its cleaned-up twin, when no later request comes before `from`. */
  ghost predicate Twin(lim: Limits, clean: Bucket, kept: Bucket, from: real) {
    || clean == kept
    || (clean.Fresh? && kept.Used? && kept.tokens >= 0.0 && from - kept.last > ENTRY_TTL)
  }

  ghost predicate NoDebt(b: Bucket) {
    b.Used? ==> b.tokens >= 0.0
  }

  /** Refilling for the whole time to live fills the bucket, or nothing is ever allowed. */
  ghost predicate Refills(lim: Limits) {
    lim.capacity < 1.0 || lim.rate * ENTRY_TTL >= lim.capacity
  }

  /** An hour or more refills the whole bucket. */
  lemma FullAgain(lim: Limits, elapsed: real)
    requires lim.capacity >= 1.0 && lim.rate * ENTRY_TTL >= lim.capacity && elapsed >= ENTRY_TTL
    ensures Refill(lim, elapsed) >= lim.capacity
  {
    assert lim.rate > 0.0;
    MulMono(ENTRY_TTL, elapsed, lim.rate);
  }

  lemma TwinLevel(lim: Limits, clean: Bucket, kept: Bucket, from: real, now: real)
    requires Refills(lim) && lim.capacity >= 1.0 && Twin(lim, clean, kept, from) && from <= now
    ensures Level(lim, clean, now) == Level(lim, kept, now)
  {
    if clean != kept {
      FullAgain(lim, now - kept.last);
      LevelAt(lim, kept, now, Refill(lim, now - kept.last));
    }
  }

  ghost predicate Twins(lim: Limits, clean: Bucket, kept: Bucket, from: real) {
    Twin(lim, clean, kept, from) && NoDebt(clean)
  }

  /** A tick may clean up one of the twins. */
  lemma TwinTick(lim: Limits, clean: Bucket, kept: Bucket, from: real, now: real)
    requires Twins(lim, clean, kept, from) && from <= now
    ensures Twins(lim, Expire(clean, now), kept, now)
  {
  }

  /** A request treats both twins alike. */
  lemma TwinRequest(lim: Limits, key: string, clean: Bucket, kept: Bucket, from: real, op: Op)
    requires Refills(lim) && Twins(lim, clean, kept, from) && op.Request? && from <= op.now
    ensures Allowed(lim, clean, op.now) == Allowed(lim, kept, op.now)
    ensures Twins(lim, After(lim, key, clean, op), After(lim, key, kept, op), op.now)
  {
    if lim.capacity >= 1.0 { TwinLevel(lim, clean, kept, from, op.now); }
  }

  lemma NoTicksRest(ops: seq<Op>)
    requires ops != []
    ensures NoTicks(ops) == if ops[0].Tick? then NoTicks(ops[1..]) else [ops[0]] + NoTicks(ops[1..])
    ensures ops[0].Request? ==> NoTicks(ops)[0] == ops[0] && NoTicks(ops)[1..] == NoTicks(ops[1..])
  {
    assert [] + NoTicks(ops[1..]) == NoTicks(ops[1..]);
    assert ([ops[0]] + NoTicks(ops[1..]))[1..] == NoTicks(ops[1..]);
  }

  lemma {:induction false} TwinAnswers(lim: Limits, key: string, clean: Bucket, kept: Bucket, ops: seq<Op>, from: real)
    requires Refills(lim) && Ordered(from, ops) && Twins(lim, clean, kept, from)
    ensures Answers(lim, key, clean, ops) == Answers(lim, key, kept, NoTicks(ops))
    decreases |ops|
  {
    if ops != [] {
      var op := ops[0];
      NoTicksRest(ops);
      if op.Tick? {
        TwinTick(lim, clean, kept, from, op.now);
        TwinAnswers(lim, key, Expire(clean, op.now), kept, ops[1..], op.now);
      } else {
        TwinRequest(lim, key, clean, kept, from, op);
        TwinAnswers(lim, key, After(lim, key, clean, op), After(lim, key, kept, op), ops[1..], op.now);
      }
    }
  }

  lemma {:induction false} TwinGranted(lim: Limits, key: string, clean: Bucket, kept: Bucket, ops: seq<Op>,
                                       s: real, t: real, from: real)
    requires Refills(lim) && Ordered(from, ops) && Twins(lim, clean, kept, from)
    ensures Granted(lim, key, clean, ops, s, t) == Granted(lim, key, kept, NoTicks(ops), s, t)
    decreases |ops|
  {
    if ops != [] {
      var op := ops[0];
      NoTicksRest(ops);
      if op.Tick? {
        TwinTick(lim, clean, kept, from, op.now);
        TwinGranted(lim, key, Expire(clean, op.now), kept, ops[1..], s, t, op.now);
      } else {
        TwinRequest(lim, key, clean, kept, from, op);
        TwinGranted(lim, key, After(lim, key, clean, op), After(lim, key, kept, op), ops[1..], s, t, op.now);
      }
    }
  }

  lemma {:induction false} NoTicksOrdered(from: real, ops: seq<Op>)
    requires Ordered(from, ops)
    ensures Ordered(from, NoTicks(ops))
    decreases |ops|
  {
    if ops != [] {
      NoTicksOrdered(ops[0].now, ops[1..]);
      var rest := NoTicks(ops[1..]);
      if ops[0].Tick? {
        assert NoTicks(ops) == rest;
      } else {
        assert NoTicks(ops) == [ops[0]] + rest;
        assert ([ops[0]] + rest)[1..] == rest;
      }
    }
  }

  /**
   A client gets no more than `capacity + rate * (t - s)` requests through in any window `[s, t]`,
   whatever the trace, cleanups included when the bucket refills within the time to live.
   */
  lemma WindowBound(lim: Limits, key: string, ops: seq<Op>, s: real, t: real, from: real)
    requires Ordered(from, ops) && s <= t
    requires Refills(lim) || forall i :: 0 <= i < |ops| ==> ops[i].Request?
    ensures var n := Granted(lim, key, Fresh, ops, s, t);
            n > 0 ==> n as real <= lim.capacity + Budget(lim, t - s)
  {
    if Refills(lim) {
      TwinGranted(lim, key, Fresh, Fresh, ops, s, t, from);
      NoTicksOrdered(from, ops);
      GrantedBound(lim, key, Fresh, NoTicks(ops), s, t, from);
    } else {
      GrantedBound(lim, key, Fresh, ops, s, t, from);
    }
  }

  // ---------- when cleaning up shows ----------

  /** A trace on which a limiter that cleans up and one that does not answer differently, from the given buckets. */
  ghost predicate Tells(lim: Limits, key: string, clean: Bucket, kept: Bucket, from: real, ops: seq<Op>) {
    Ordered(from, ops) && Answers(lim, key, clean, ops) != Answers(lim, key, kept, NoTicks(ops))
  }

  /** Cleaning up never changes an answer. */
  ghost predicate CleanupIsInvisible(lim: Limits) {
    forall key, from, ops :: !Tells(lim, key, Fresh, Fresh, from, ops)
  }

  /** A trace that tells two buckets apart after one more operation gives one that tells them apart before it. */
  lemma Earlier(lim: Limits, key: string, clean: Bucket, kept: Bucket, from: real, op: Op,
        ops: seq<Op>)
    returns (all: seq<Op>)
    requires from <= op.now && (op.Request? ==> op.key == key)
    requires Tells(lim, key, After(lim, key, clean, op), if op.Tick? then kept else After(lim, key, kept, op), op.now, ops)
    ensures Tells(lim, key, clean, kept, from, all)
  {
    all := [op] + ops;
    assert all[1..] == ops;
    if op.Tick? {
      assert NoTicks(all) == NoTicks(ops);
      assert Answers(lim, key, clean, all) == Answers(lim, key, After(lim, key, clean, op), ops);
    } else {
      var left, right := Answers(lim, key, After(lim, key, clean, op), ops),
                         Answers(lim, key, After(lim, key, kept, op), NoTicks(ops));
      assert NoTicks(all) == [op] + NoTicks(ops);
      assert NoTicks(all)[1..] == NoTicks(ops);
      assert Answers(lim, key, clean, all) == [Allowed(lim, clean, op.now)] + left;
      assert Answers(lim, key, kept, NoTicks(all)) == [Allowed(lim, kept, op.now)] + right;
      assert ([Allowed(lim, clean, op.now)] + left)[1..] == left;
      assert ([Allowed(lim, kept, op.now)] + right)[1..] == right;
    }
  }

  lemma AtOnce(lim: Limits, key: string, clean: Bucket, kept: Bucket, from: real, now: real)
    returns (ops: seq<Op>)
    requires from <= now && Allowed(lim, clean, now) && !Allowed(lim, kept, now)
    ensures Tells(lim, key, clean, kept, from, ops)
  {
    ops := [Request(key, now)];
    assert ops[1..] == [] && NoTicks([]) == [];
    assert NoTicks(ops) == ops;
    assert Answers(lim, key, clean, ops)[0] && !Answers(lim, key, kept, ops)[0];
  }

  /** Waiting for `x` tokens at a positive rate. */
  function Wait(lim: Limits, x: real): (d: real)
    requires lim.rate > 0.0 && x >= 0.0
    ensures d >= 0.0 && Refill(lim, d) == x
  {
    x / lim.rate
  }

  lemma LevelAt(lim: Limits, b: Bucket, now: real, gained: real)
    requires b.Used? && Refill(lim, now - b.last) == gained
    ensures Level(lim, b, now) == Min(b.tokens + gained, lim.capacity)
  {
  }

  /** Two buckets of the same age are told apart, however close they are. */
  lemma {:induction false} FewerTokens(lim: Limits, key: string, clean: Bucket, kept: Bucket)
    returns (ops: seq<Op>)
    requires lim.rate > 0.0 && lim.capacity >= 1.0
    requires clean.Used? && kept.Used? && clean.last == kept.last && 0.0 <= kept.tokens < clean.tokens <= lim.capacity
    ensures Tells(lim, key, clean, kept, clean.last, ops)
    decreases kept.tokens.Floor
  {
    var t := clean.last;
    LevelAt(lim, clean, t, 0.0);
    LevelAt(lim, kept, t, 0.0);
    if clean.tokens < 1.0 {
      var d := Wait(lim, 1.0 - clean.tokens);
      LevelAt(lim, clean, t + d, 1.0 - clean.tokens);
      LevelAt(lim, kept, t + d, 1.0 - clean.tokens);
      ops := AtOnce(lim, key, clean, kept, t, t + d);
    } else if kept.tokens < 1.0 {
      ops := AtOnce(lim, key, clean, kept, t, t);
    } else {
      var rest := FewerTokens(lim, key, Used(clean.tokens - 1.0, t), Used(kept.tokens - 1.0, t));
      ops := Earlier(lim, key, clean, kept, t, Request(key, t), rest);
    }
  }

  /** A bucket that was empty longer ago than the time to live is not full yet, and its cleaned-up twin is. */
  lemma EmptyShows(lim: Limits, key: string, last: real) returns (ops: seq<Op>)
    requires lim.rate > 0.0 && lim.capacity >= 1.0 && lim.rate * ENTRY_TTL < lim.capacity
    ensures Tells(lim, key, Used(0.0, last), Used(0.0, last), last, ops)
  {
    var d, gained := PastTheHour(lim);
    var kept, now := Used(0.0, last), last + d;
    LevelAt(lim, kept, now, gained);
    var rest;
    if gained < 1.0 {
      rest := AtOnce(lim, key, Fresh, kept, now, now);
    } else {
      var later := FewerTokens(lim, key, Used(lim.capacity - 1.0, now), Used(gained - 1.0, now));
      rest := Earlier(lim, key, Fresh, kept, now, Request(key, now), later);
    }
    ops := Earlier(lim, key, kept, kept, last, Tick(now), rest);
  }

  /** Any bucket can be emptied, or drained below one token for good. */
  lemma {:induction false} UsedShows(lim: Limits, key: string, b: Bucket) returns (ops: seq<Op>)
    requires lim.capacity >= 1.0 && lim.rate * ENTRY_TTL < lim.capacity
    requires b.Used? && 0.0 <= b.tokens <= lim.capacity
    ensures Tells(lim, key, b, b, b.last, ops)
    decreases b.tokens.Floor
  {
    var t := b.last;
    LevelAt(lim, b, t, 0.0);
    if b.tokens >= 1.0 {
      var rest := UsedShows(lim, key, Used(b.tokens - 1.0, t));
      ops := Earlier(lim, key, b, b, t, Request(key, t), rest);
    } else if lim.rate > 0.0 {
      var d := Wait(lim, 1.0 - b.tokens);
      LevelAt(lim, b, t + d, 1.0 - b.tokens);
      var rest := EmptyShows(lim, key, t + d);
      ops := Earlier(lim, key, b, b, t, Request(key, t + d), rest);
    } else {
      var now := t + ENTRY_TTL + 1.0;
      MulMono(lim.rate, 0.0, now - t);
      var rest := AtOnce(lim, key, Fresh, b, now, now);
      ops := Earlier(lim, key, b, b, t, Tick(now), rest);
    }
  }

  /** Cleaning up is invisible exactly when an hour refills the bucket, or when nothing is ever allowed. */
  lemma CleanupInvisibleExactly(lim: Limits)
    ensures CleanupIsInvisible(lim) <==> (lim.capacity < 1.0 || lim.rate * 3600.0 >= lim.capacity)
  {
    if Refills(lim) {
      forall key, from, ops
        ensures !Tells(lim, key, Fresh, Fresh, from, ops)
      {
        if Ordered(from, ops) { TwinAnswers(lim, key, Fresh, Fresh, ops, from); }
      }
    } else {
      var rest := UsedShows(lim, "", Used(lim.capacity - 1.0, 0.0));
      var ops := Earlier(lim, "", Fresh, Fresh, 0.0, Request("", 0.0), rest);
      assert !CleanupIsInvisible(lim);
    }
  }

  // ---------- when cleaning up breaks the bound ----------

  /** A trace in `[from, t]` that gets `v` requests through beyond what the refill of that time pays for. */
  ghost predicate Yields(lim: Limits, key: string, b: Bucket, s: real, from: real, ops: seq<Op>, t: real, v: real) {
    && s <= from <= t && Ordered(from, ops)
    && Granted(lim, key, b, ops, s, t) as real == v + Budget(lim, t - from)
  }

  /** What one more operation in front adds. */
  lemma Sooner(lim: Limits, key: string, b: Bucket, s: real, from: real, op: Op, ops: seq<Op>,
        t: real, v: real)
    requires s <= from <= op.now && (op.Request? ==> op.key == key && Allowed(lim, b, op.now))
    requires Yields(lim, key, After(lim, key, b, op), s, op.now, ops, t, v)
    ensures Yields(lim, key, b, s, from, [op] + ops, t,
                   v + (if op.Request? then 1.0 else 0.0) - Budget(lim, op.now - from))
  {
    var all := [op] + ops;
    assert all[0] == op && all[1..] == ops;
    BudgetAdds(lim, from, op.now, t);
    var rest := Granted(lim, key, After(lim, key, b, op), ops, s, t);
    assert Granted(lim, key, b, all, s, t) == rest + if op.Request? then 1 else 0;
  }

  lemma Nothing(lim: Limits, key: string, b: Bucket, s: real, t: real)
    requires s <= t
    ensures Yields(lim, key, b, s, t, [], t, 0.0)
  {
  }

  lemma GainIsRefill(lim: Limits, elapsed: real)
    requires lim.rate >= 0.0
    ensures Budget(lim, elapsed) == Refill(lim, elapsed)
  {
  }

  lemma GainIsNothing(lim: Limits, elapsed: real)
    requires lim.rate <= 0.0
    ensures Budget(lim, elapsed) == 0.0
  {
  }

  /** Waiting for exactly one token and taking it. */
  lemma TakeWhenFull(lim: Limits, key: string, b: Bucket, s: real, ops: seq<Op>, t: real, v: real)
    returns (all: seq<Op>, w: real)
    requires lim.rate > 0.0 && lim.capacity >= 1.0 && b.Used? && 0.0 <= b.tokens < 1.0 && s <= b.last
    requires Yields(lim, key, Used(0.0, b.last + Wait(lim, 1.0 - b.tokens)), s, b.last + Wait(lim, 1.0 - b.tokens), ops, t, v)
    ensures Yields(lim, key, b, s, b.last, all, t, w) && w == v + b.tokens
  {
    var d := Wait(lim, 1.0 - b.tokens);
    var op := Request(key, b.last + d);
    LevelAt(lim, b, op.now, 1.0 - b.tokens);
    GainIsRefill(lim, d);
    Sooner(lim, key, b, s, b.last, op, ops, t, v);
    all := [op] + ops;
    w := v + b.tokens;
  }

  /** A used bucket can be emptied: its tokens all get through. */
  lemma {:induction false} Drained(lim: Limits, key: string, b: Bucket, s: real) returns (ops: seq<Op>, t: real,
        v: real)
    requires lim.rate > 0.0 && lim.capacity >= 1.0
    requires b.Used? && 0.0 <= b.tokens <= lim.capacity && s <= b.last
    ensures Yields(lim, key, b, s, b.last, ops, t, v) && v == b.tokens
    decreases b.tokens.Floor
  {
    if b.tokens < 1.0 {
      var now := b.last + Wait(lim, 1.0 - b.tokens);
      Nothing(lim, key, Used(0.0, now), s, now);
      t := now;
      ops, v := TakeWhenFull(lim, key, b, s, [], t, 0.0);
    } else {
      LevelAt(lim, b, b.last, 0.0);
      var rest, w;
      rest, t, w := Drained(lim, key, Used(b.tokens - 1.0, b.last), s);
      ops, v := TakeNow(lim, key, b, s, b.last, rest, t, w);
    }
  }

  lemma TakeNow(lim: Limits, key: string, b: Bucket, s: real, now: real, rest: seq<Op>, t: real,
        w: real)
    returns (ops: seq<Op>, v: real)
    requires s <= now && Allowed(lim, b, now) && Yields(lim, key, Take(lim, b, now), s, now, rest, t, w)
    ensures Yields(lim, key, b, s, now, ops, t, v) && v == w + 1.0
  {
    var op := Request(key, now);
    Sooner(lim, key, b, s, now, op, rest, t, w);
    assert Budget(lim, now - now) == 0.0;
    ops, v := [op] + rest, w + 1.0;
  }

  /** An empty bucket that is forgotten before it is full again gets more through than its refill. */
  lemma EmptyOverdraws(lim: Limits, key: string, last: real, s: real) returns (ops: seq<Op>,
        t: real, v: real)
    requires lim.rate > 0.0 && lim.capacity >= 1.0 && lim.rate * ENTRY_TTL < lim.capacity && s <= last
    ensures Yields(lim, key, Used(0.0, last), s, last, ops, t, v) && v > 0.0
  {
    var d, gained := PastTheHour(lim);
    var now := last + d;
    var rest, w;
    rest, t, w := Drained(lim, key, Used(lim.capacity - 1.0, now), s);
    var more, u := TakeNow(lim, key, Fresh, s, now, rest, t, w);
    var op := Tick(now);
    GainIsRefill(lim, d);
    Sooner(lim, key, Used(0.0, last), s, last, op, more, t, u);
    ops, v := [op] + more, u - gained;
  }

  /** A wait longer than the time to live that does not fill the bucket. */
  lemma PastTheHour(lim: Limits) returns (d: real, gained: real)
    requires lim.rate > 0.0 && lim.rate * ENTRY_TTL < lim.capacity && lim.capacity >= 1.0
    ensures d > ENTRY_TTL && Refill(lim, d) == gained && 0.0 < gained < lim.capacity
  {
    var hour := Refill(lim, ENTRY_TTL);
    assert 0.0 < hour < lim.capacity;
    gained := (hour + lim.capacity) / 2.0;
    d := Wait(lim, gained);
    LongerWait(lim, ENTRY_TTL, d);
  }

  lemma LongerWait(lim: Limits, short: real, long: real)
    requires lim.rate > 0.0 && Refill(lim, short) < Refill(lim, long)
    ensures short < long
  {
    if long <= short { MulMono(long, short, lim.rate); }
  }

  /** At a rate of zero or less the forgotten bucket is full again for nothing. */
  lemma IdleOverdraws(lim: Limits, key: string, b: Bucket, s: real) returns (ops: seq<Op>,
        t: real, v: real)
    requires lim.rate <= 0.0 && lim.capacity >= 1.0 && b.Used? && b.tokens < 1.0 && s <= b.last
    ensures Yields(lim, key, b, s, b.last, ops, t, v) && v > b.tokens
  {
    t := b.last + ENTRY_TTL + 1.0;
    Nothing(lim, key, Used(lim.capacity - 1.0, t), s, t);
    var more, u := TakeNow(lim, key, Fresh, s, t, [], t, 0.0);
    var op := Tick(t);
    GainIsNothing(lim, t - b.last);
    Sooner(lim, key, b, s, b.last, op, more, t, u);
    ops, v := [op] + more, u;
  }

  /** Any used bucket can get more through than its tokens and its refill. */
  lemma {:induction false} UsedOverdraws(lim: Limits, key: string, b: Bucket, s: real) returns (ops: seq<Op>,
        t: real, v: real)
    requires lim.capacity >= 1.0 && lim.rate * ENTRY_TTL < lim.capacity
    requires b.Used? && 0.0 <= b.tokens <= lim.capacity && s <= b.last
    ensures Yields(lim, key, b, s, b.last, ops, t, v) && v > b.tokens
    decreases b.tokens.Floor
  {
    if b.tokens >= 1.0 {
      LevelAt(lim, b, b.last, 0.0);
      var rest, w;
      rest, t, w := UsedOverdraws(lim, key, Used(b.tokens - 1.0, b.last), s);
      ops, v := TakeNow(lim, key, b, s, b.last, rest, t, w);
    } else if lim.rate > 0.0 {
      var rest, w;
      rest, t, w := EmptyOverdraws(lim, key, b.last + Wait(lim, 1.0 - b.tokens), s);
      ops, v := TakeWhenFull(lim, key, b, s, rest, t, w);
    } else {
      ops, t, v := IdleOverdraws(lim, key, b, s);
    }
  }

  /** In the window `[s, t]` the client gets no more than a full bucket and its refill. */
  ghost predicate Within(lim: Limits, key: string, ops: seq<Op>, s: real, t: real) {
    var n := Granted(lim, key, Fresh, ops, s, t);
    n > 0 ==> n as real <= lim.capacity + Budget(lim, t - s)
  }

  /** The bound holds for every client, every trace with its cleanups, and every window. */
  ghost predicate AlwaysWithin(lim: Limits) {
    forall key, from, ops, s, t :: Ordered(from, ops) && s <= t ==> Within(lim, key, ops, s, t)
  }

  lemma Overdraft(lim: Limits)
    requires lim.capacity >= 1.0 && lim.rate * ENTRY_TTL < lim.capacity
    ensures !AlwaysWithin(lim)
  {
    var rest, t, w := UsedOverdraws(lim, "", Used(lim.capacity - 1.0, 0.0), 0.0);
    var ops, v := TakeNow(lim, "", Fresh, 0.0, 0.0, rest, t, w);
    BudgetNotNegative(lim, t);
    assert Ordered(0.0, ops) && !Within(lim, "", ops, 0.0, t);
  }

  /**
   The bound holds for all traces, cleanups included, exactly when an hour refills the bucket or
   nothing is ever allowed.
   */
  lemma WindowBoundExactly(lim: Limits)
    ensures AlwaysWithin(lim) <==> (lim.capacity < 1.0 || lim.rate * 3600.0 >= lim.capacity)
  {
    if Refills(lim) {
      forall key, from, ops, s, t | Ordered(from, ops) && s <= t ensures Within(lim, key, ops, s, t) {
        WindowBound(lim, key, ops, s, t, from);
      }
    } else {
      Overdraft(lim);
    }
  }

  /** A bucket of one token that never refills lets two requests through after a cleanup. */
  lemma SlowBucketOverdraws()
    ensures var lim, ops := Limits(0.0, 1.0), [Request("", 0.0), Tick(3601.0), Request("", 3601.0)];
            Ordered(0.0, ops) && Granted(lim, "", Fresh, ops, 0.0, 3601.0) == 2 && !Within(lim, "", ops, 0.0, 3601.0)
  {
    var lim, ops := Limits(0.0, 1.0), [Request("", 0.0), Tick(3601.0), Request("", 3601.0)];
    assert ops[1..] == [Tick(3601.0), Request("", 3601.0)];
    assert ops[1..][1..] == [Request("", 3601.0)];
    assert ops[1..][1..][1..] == [];
    assert Granted(lim, "", Fresh, ops[1..][1..], 0.0, 3601.0) == 1;
  }

  // ---------- who is let in ----------

  /** `n` requests of `key` at one moment. */
  function Volley(key: string, now: real, n: nat): (ops: seq<Op>)
    ensures |ops| == n && forall i :: 0 <= i < n ==> ops[i] == Request(key, now)
  {
    if n == 0 then [] else [Request(key, now)] + Volley(key, now, n - 1)
  }

  lemma {:induction false} VolleyAnswers(lim: Limits, key: string, b: Bucket, now: real, n: nat, i: nat)
    requires i < n
    ensures |Answers(lim, key, b, Volley(key, now, n))| == n
    ensures Answers(lim, key, b, Volley(key, now, n))[i] <==> (i + 1) as real <= Level(lim, b, now)
    decreases n
  {
    var ops, b' := Volley(key, now, n), Take(lim, b, now);
    assert ops[1..] == Volley(key, now, n - 1);
    assert Refill(lim, now - now) == 0.0;
    if n == 1 {
      assert Answers(lim, key, b', ops[1..]) == [];
    } else if i == 0 {
      VolleyAnswers(lim, key, b', now, n - 1, 0);
    } else {
      VolleyAnswers(lim, key, b', now, n - 1, i - 1);
      if Allowed(lim, b, now) { LevelAt(lim, b', now, 0.0); }
    }
  }

  /** Of a volley of a new client exactly as many requests pass as the capacity holds whole tokens. */
  lemma BurstExactly(lim: Limits, key: string, now: real, n: nat, i: nat)
    requires i < n
    ensures |Answers(lim, key, Fresh, Volley(key, now, n))| == n
    ensures Answers(lim, key, Fresh, Volley(key, now, n))[i] <==> (i + 1) as real <= lim.capacity
  {
    VolleyAnswers(lim, key, Fresh, now, n, i);
  }

  /** Requests of `key` come no earlier than `next`, and each at least `gap` after the one before; ticks at any time. */
  predicate Paced(key: string, gap: real, next: real, ops: seq<Op>)
    decreases |ops|
  {
    ops == [] ||
    if ops[0].Request? && ops[0].key == key then next <= ops[0].now && Paced(key, gap, ops[0].now + gap, ops[1..])
    else Paced(key, gap, next, ops[1..])
  }

  /** From `next` on the bucket holds a token. */
  ghost predicate Ready(lim: Limits, b: Bucket, next: real) {
    b.Used? ==> b.tokens + Refill(lim, next - b.last) >= 1.0
  }

  lemma RefillGrows(lim: Limits, a: real, b: real)
    requires a <= b && lim.rate >= 0.0
    ensures Refill(lim, a) <= Refill(lim, b)
  {
    MulMono(a, b, lim.rate);
  }

  lemma ReadyAllows(lim: Limits, b: Bucket, next: real, now: real)
    requires lim.capacity >= 1.0 && lim.rate >= 0.0 && Ready(lim, b, next) && next <= now
    ensures Allowed(lim, b, now)
  {
    if b.Used? {
      RefillGrows(lim, next - b.last, now - b.last);
      LevelAt(lim, b, now, Refill(lim, now - b.last));
    }
  }

  /** A client that waits `gap` between requests, long enough for one token, is never refused. */
  lemma {:induction false} PacedPasses(lim: Limits, key: string, b: Bucket, ops: seq<Op>, gap: real, next: real)
    requires lim.capacity >= 1.0 && lim.rate >= 0.0 && lim.rate * gap >= 1.0
    requires Ready(lim, b, next) && Paced(key, gap, next, ops)
    ensures forall i :: 0 <= i < |Answers(lim, key, b, ops)| ==> Answers(lim, key, b, ops)[i]
    decreases |ops|
  {
    if ops != [] {
      var now := ops[0].now;
      if ops[0].Request? && ops[0].key == key {
        ReadyAllows(lim, b, next, now);
        assert Refill(lim, now + gap - now) >= 1.0;
        PacedPasses(lim, key, Take(lim, b, now), ops[1..], gap, now + gap);
      } else {
        PacedPasses(lim, key, After(lim, key, b, ops[0]), ops[1..], gap, next);
      }
    }
  }
}
