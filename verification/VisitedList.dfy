/**
 The generational visited set of internal/pool/pool.go.

 A slot counts as visited when it carries the current generation, so a reset only advances the
 generation.  Generations are 32-bit: when the counter wraps, the slots are zeroed instead.
 */
module VisitedList {

  const GENERATIONS := 0x1_0000_0000

  type Word = w: nat | w < GENERATIONS

  /** The slots and the current generation. */
  datatype State = State(matches: seq<Word>, current: Word)

  predicate Holds(s: State, id: nat) {
    id < |s.matches| && s.matches[id] == s.current
  }

  function Zeros(n: nat): (z: seq<Word>)
    ensures |z| == n && forall i :: 0 <= i < n ==> z[i] == 0
  {
    seq(n, _ => 0)
  }

  function Grown(s: State, id: nat): (r: State)
    ensures id < |r.matches|
  {
    if id < |s.matches| then s else State(s.matches + Zeros(id * 2 + 100 - |s.matches|), s.current)
  }

  function Added(s: State, id: nat): State {
    var g := Grown(s, id);
    State(g.matches[id := g.current], g.current)
  }

  function Cleared(s: State): State {
    if s.current + 1 < GENERATIONS then State(s.matches, s.current + 1) else State(Zeros(|s.matches|), 1)
  }

  class Tracker {
    var matches: array<Word>
    var current: Word

    ghost function Abs(): State
      reads this, matches
    {
      State(matches[..], current)
    }

    constructor (size: nat)
      ensures fresh(matches) && Abs() == State(Zeros(size), 0)
    {
      matches := new Word[size](_ => 0);
      current := 0;
    }

    method Add(id: Word) returns (visited: bool)
      modifies this, matches
      ensures matches == old(matches) || fresh(matches)
      ensures Abs() == Added(old(Abs()), id)
      ensures visited == Holds(Grown(old(Abs()), id), id)
    {
      if id >= matches.Length {
        var newCap := id * 2 + 100;
        var newMatches := new Word[newCap](_ => 0);
        forall i | 0 <= i < matches.Length {
          newMatches[i] := matches[i];
        }
        matches := newMatches;
        assert matches[..] == Grown(old(Abs()), id).matches;
      }
      if matches[id] == current {
        assert matches[..] == matches[..][id := current];
        return true;
      }
      matches[id] := current;
      return false;
    }

    method Contains(id: Word) returns (visited: bool)
      ensures visited == Holds(Abs(), id)
    {
      if id >= matches.Length {
        return false;
      }
      return matches[id] == current;
    }

    method Reset()
      modifies this, matches
      ensures matches == old(matches)
      ensures Abs() == Cleared(old(Abs()))
    {
      current := if current + 1 < GENERATIONS then current + 1 else 0;
      if current == 0 {
        for i := 0 to matches.Length
          invariant matches == old(matches) && current == 0
          invariant forall j :: 0 <= j < i ==> matches[j] == 0
        {
          matches[i] := 0;
        }
        current := 1;
        assert matches[..] == Zeros(matches.Length);
      }
    }
  }

  // ---------- any number of uses ----------

  /** Taking the list from the pool resets it. */
  datatype Op = Take | Add(id: Word)

  function After(s: State, op: Op): State {
    match op
    case Take => Cleared(s)
    case Add(id) => Added(s, id)
  }

  /** A list made with `size` slots, after a history of pool uses. */
  function Run(size: nat, ops: seq<Op>): State {
    if ops == [] then State(Zeros(size), 0) else After(Run(size, ops[..|ops| - 1]), ops[|ops| - 1])
  }

  /** The IDs added since the list was last taken from the pool. */
  function SinceTake(ops: seq<Op>): set<nat> {
    if ops == [] then {}
    else
      match ops[|ops| - 1]
      case Take => {}
      case Add(id) => SinceTake(ops[..|ops| - 1]) + {id}
  }

  /** No slot is ahead of the current generation. */
  ghost predicate NoneAhead(s: State) {
    forall i :: 0 <= i < |s.matches| ==> s.matches[i] <= s.current
  }

  lemma ClearedIsEmpty(s: State, id: nat)
    requires NoneAhead(s)
    ensures !Holds(Cleared(s), id)
  {
  }

  lemma AddedHolds(s: State, a: nat, id: nat)
    requires s.current > 0
    ensures Holds(Added(s, a), id) <==> Holds(s, id) || id == a
  {
    var g := Grown(s, a);
    if |s.matches| <= id < |g.matches| {
      assert g.matches[id] == 0;
    }
  }

  lemma {:induction false} RunNoneAhead(size: nat, ops: seq<Op>)
    ensures NoneAhead(Run(size, ops))
    ensures Run(size, ops).current > 0 <==> Take in ops
  {
    if ops != [] {
      var init, last := ops[..|ops| - 1], ops[|ops| - 1];
      RunNoneAhead(size, init);
      assert ops == init + [last];
      var before := Run(size, init);
      if last.Add? {
        assert forall i :: 0 <= i < |before.matches| ==> Grown(before, last.id).matches[i] == before.matches[i];
      }
    }
  }

  /** A list taken from the pool holds exactly what was added since, however often it was used before. */
  lemma {:induction false} HoldsSinceTake(size: nat, ops: seq<Op>, id: nat)
    requires Take in ops
    ensures Holds(Run(size, ops), id) <==> id in SinceTake(ops)
  {
    var init, last := ops[..|ops| - 1], ops[|ops| - 1];
    assert ops == init + [last];
    RunNoneAhead(size, init);
    match last {
      case Take => ClearedIsEmpty(Run(size, init), id);
      case Add(a) =>
        HoldsSinceTake(size, init, id);
        AddedHolds(Run(size, init), a, id);
    }
  }

  /** A list that was never taken from the pool holds every ID it has a slot for. */
  lemma NeverTakenHoldsAll(size: nat, ops: seq<Op>, id: nat)
    requires Take !in ops
    ensures Holds(Run(size, ops), id) <==> id < |Run(size, ops).matches|
  {
    RunNoneAhead(size, ops);
  }

  /** How many slots a list has after a history of uses. */
  function Slots(size: nat, ops: seq<Op>): nat {
    if ops == [] then size
    else
      var before := Slots(size, ops[..|ops| - 1]);
      match ops[|ops| - 1]
      case Take => before
      case Add(id) => if id < before then before else id * 2 + 100
  }

  lemma {:induction false} SlotsOfRun(size: nat, ops: seq<Op>)
    ensures |Run(size, ops).matches| == Slots(size, ops)
  {
    if ops != [] { SlotsOfRun(size, ops[..|ops| - 1]); }
  }

  lemma {:induction false} AddedHasSlot(size: nat, ops: seq<Op>, id: nat)
    requires id in SinceTake(ops)
    ensures id < Slots(size, ops)
  {
    var init, last := ops[..|ops| - 1], ops[|ops| - 1];
    if last.Add? && last.id != id {
      AddedHasSlot(size, init, id);
    }
  }

  /** A list made with `size` slots behaves as the set of what was added, for every ID. */
  ghost predicate IsASet(size: nat, ops: seq<Op>) {
    forall id: Word :: Holds(Run(size, ops), id) <==> id in SinceTake(ops)
  }

  /** Every ID with a slot has been added. */
  ghost predicate AllAdded(size: nat, ops: seq<Op>) {
    forall id: Word :: id < Slots(size, ops) ==> id in SinceTake(ops)
  }

  /** The list behaves as a set exactly when it was taken from the pool, or when every ID with a slot was added anyway. */
  lemma IsASetExactly(size: nat, ops: seq<Op>)
    ensures IsASet(size, ops) <==> Take in ops || AllAdded(size, ops)
  {
    if Take in ops {
      forall id: Word ensures Holds(Run(size, ops), id) <==> id in SinceTake(ops) {
        HoldsSinceTake(size, ops, id);
      }
    } else {
      SlotsOfRun(size, ops);
      forall id: Word
        ensures Holds(Run(size, ops), id) <==> id < Slots(size, ops)
        ensures id in SinceTake(ops) ==> id < Slots(size, ops)
      {
        NeverTakenHoldsAll(size, ops, id);
        if id in SinceTake(ops) { AddedHasSlot(size, ops, id); }
      }
    }
  }

  // ---------- the pool ----------

  class Pool {
    const initialSize: nat
    var free: set<Tracker>

    ghost predicate Valid()
      reads this, free, set t | t in free :: t.matches
    {
      && (forall t, u :: t in free && u in free && t.matches == u.matches ==> t == u)
      && (forall t :: t in free ==> NoneAhead(t.Abs()))
    }

    constructor (initialSize: nat)
      ensures Valid() && free == {}
    {
      this.initialSize := initialSize;
      free := {};
    }

    /** A list from the pool, or a new one, always empty. */
    method Get() returns (t: Tracker)
      requires Valid()
      modifies this, free, set u | u in free :: u.matches
      ensures Valid()
      ensures free == old(free) - {t} && (t in old(free) || fresh(t))
      ensures NoneAhead(t.Abs()) && t.current > 0
      ensures forall id :: !Holds(t.Abs(), id)
    {
      if * {
        t := new Tracker(initialSize);
      } else {
        if free == {} {
          t := new Tracker(initialSize);
        } else {
          t :| t in free;
          free := free - {t};
        }
      }
      forall id ensures !Holds(Cleared(t.Abs()), id) { ClearedIsEmpty(t.Abs(), id); }
      t.Reset();
    }

    method Put(t: Tracker)
      requires Valid() && NoneAhead(t.Abs())
      requires forall u :: u in free && u.matches == t.matches ==> u == t
      modifies this
      ensures Valid() && free == old(free) + {t}
    {
      free := free + {t};
    }
  }
}
