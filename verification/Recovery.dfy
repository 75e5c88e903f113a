/**
 Durability of a single-vector collection: the write path of pkg/collection/collection.go and the
 replay of pkg/collection/recovery.go.

 Every write logs a record and then changes the index; recovery loads an index saved at some
 earlier moment and replays the whole log over it.  The index is the one of `PointIndex`, where a
 deleted ID keeps its place.  Because of that, replaying an update or a delete over an index that
 already holds the point kills the point for good: recovery does not always bring back what was
 there.  The module says exactly when it does, and that it always would over an index whose
 delete frees the ID.
 */
module Recovery {
  import opened PointIndex
  import opened Wrappers

  datatype Num = Finite(x: real) | NotFinite

  type Vector = seq<Num>

  /** A point; the payload is opaque. */
  datatype Point = Point(id: string, vector: Vector, payload: string, named: map<string, Vector>, sparse: bool)

  datatype Stored = Stored(vector: Vector, payload: string)

  /** `norm` is the normalization of the configured metric and `serializable` says which points Encode accepts. */
  datatype Config = Config(dimension: nat, norm: Vector -> Vector, serializable: Point -> bool)

  datatype Record = Insert(point: Point) | Update(point: Point) | Delete(id: string) | Checkpoint

  predicate AllFinite(v: Vector) {
    forall i :: 0 <= i < |v| ==> v[i].Finite?
  }

  predicate Validate(p: Point) {
    && p.id != ""
    && !(p.vector == [] && |p.named| == 0 && !p.sparse)
    && AllFinite(p.vector)
    && forall name :: name in p.named ==> AllFinite(p.named[name])
  }

  /** What is wrong with a point. */
  datatype Flaw = EmptyId | EmptyVector | InvalidVector(index: nat)

  method CheckVector(v: Vector) returns (flaw: Option<Flaw>)
    ensures flaw.None? <==> forall i :: 0 <= i < |v| ==> v[i] != NotFinite
    ensures flaw.Some? ==> flaw.value.InvalidVector? && flaw.value.index < |v| && v[flaw.value.index] == NotFinite
    ensures flaw.Some? ==> forall i :: 0 <= i < flaw.value.index ==> v[i] != NotFinite
  {
    for i := 0 to |v|
      invariant forall j :: 0 <= j < i ==> v[j] != NotFinite
    {
      if v[i] == NotFinite { return Some(InvalidVector(i)); }
    }
    return None;
  }

  /** A point is accepted when it has an ID, some vector, and only numbers as coordinates; errors come in this order. */
  method CheckPoint(p: Point) returns (flaw: Option<Flaw>)
    ensures flaw.None? <==>
              && p.id != "" && (p.vector != [] || p.named != map[] || p.sparse)
              && (forall i :: 0 <= i < |p.vector| ==> p.vector[i] != NotFinite)
              && (forall name, i :: name in p.named && 0 <= i < |p.named[name]| ==> p.named[name][i] != NotFinite)
    ensures flaw == Some(EmptyId) <==> p.id == ""
    ensures flaw == Some(EmptyVector) <==> p.id != "" && p.vector == [] && p.named == map[] && !p.sparse
    ensures flaw.None? <==> Validate(p)
  {
    if p.id == "" { return Some(EmptyId); }
    if |p.vector| == 0 && |p.named| == 0 && !p.sparse { return Some(EmptyVector); }
    flaw := CheckVector(p.vector);
    if flaw.Some? { return; }
    var todo := p.named.Keys;
    while todo != {}
      invariant todo <= p.named.Keys && flaw.None?
      invariant forall name :: name in p.named && name !in todo ==> AllFinite(p.named[name])
      decreases |todo|
    {
      var name :| name in todo;
      flaw := CheckVector(p.named[name]);
      if flaw.Some? { return; }
      todo := todo - {name};
    }
  }

  function Store(cfg: Config, p: Point): Stored {
    Stored(cfg.norm(p.vector), p.payload)
  }

  /** Whether the index accepts the vector of `p`; a point without a vector never reaches the index. */
  predicate Fits(cfg: Config, p: Point) {
    |p.vector| > 0 && |p.vector| == cfg.dimension
  }

  function InsertInternal(cfg: Config, idx: Index<Stored>, p: Point): (Index<Stored>, Outcome) {
    if |p.vector| == 0 then (idx, Pass)
    else if |p.vector| != cfg.dimension then (idx, Fail(DimensionMismatch))
    else if p.id in idx then (idx, Fail(PointExists))
    else (InsertId(idx, p.id, Store(cfg, p)), Pass)
  }

  function UpsertInternal(cfg: Config, idx: Index<Stored>, p: Point): (Index<Stored>, Outcome) {
    var without := DeleteId(idx, p.id);
    if |p.vector| == 0 || |p.vector| != cfg.dimension then (without, Fail(DimensionMismatch))
    else if p.id in without then (without, Fail(PointExists))
    else (InsertId(without, p.id, Store(cfg, p)), Pass)
  }

  function DeleteInternal(idx: Index<Stored>, id: string): (Index<Stored>, Outcome) {
    if id in idx then (DeleteId(idx, id), Pass) else (idx, Fail(PointNotFound))
  }

  /** Replays one record; errors are ignored. */
  function Redo(cfg: Config, idx: Index<Stored>, rec: Record): Index<Stored> {
    match rec
    case Insert(p) => InsertInternal(cfg, idx, p).0
    case Update(p) => UpsertInternal(cfg, idx, p).0
    case Delete(id) => DeleteInternal(idx, id).0
    case Checkpoint => idx
  }

  function Replay(cfg: Config, idx: Index<Stored>, log: seq<Record>): Index<Stored> {
    if log == [] then idx
    else Redo(cfg, Replay(cfg, idx, log[..|log| - 1]), log[|log| - 1])
  }

  /** A reader gets the payload of `p` and its vector, normalized. */
  predicate Held(cfg: Config, idx: Index<Stored>, p: Point) {
    p.id in Contents(idx) && Contents(idx)[p.id].payload == p.payload && Contents(idx)[p.id].vector == cfg.norm(p.vector)
  }

  /** Whether an upsert gets as far as the log. */
  predicate Upsertable(cfg: Config, p: Point) {
    Validate(p) && |p.vector| == cfg.dimension && cfg.serializable(p)
  }

  lemma UpsertContents(cfg: Config, idx: Index<Stored>, p: Point)
    ensures var res := UpsertInternal(cfg, idx, p);
            && (res.1.Pass? <==> Fits(cfg, p) && p.id !in idx)
            && (Fits(cfg, p) && p.id in idx ==> res.1 == Fail(PointExists))
            && Contents(res.0) == (if res.1.Pass? then Contents(idx)[p.id := Store(cfg, p)] else Contents(idx) - {p.id})
            && (Held(cfg, res.0, p) <==> res.1.Pass?)
  {
  }

  lemma ReplayOne(cfg: Config, idx: Index<Stored>, rec: Record)
    ensures Replay(cfg, idx, [rec]) == Redo(cfg, idx, rec)
  {
    assert [rec][..0] == [];
  }

  lemma {:induction false} ReplayConcat(cfg: Config, idx: Index<Stored>, a: seq<Record>, b: seq<Record>)
    ensures Replay(cfg, idx, a + b) == Replay(cfg, Replay(cfg, idx, a), b)
  {
    if b == [] {
      assert a + b == a;
    } else {
      var init := b[..|b| - 1];
      assert (a + b)[..|a + b| - 1] == a + init;
      ReplayConcat(cfg, idx, a, init);
    }
  }

  // ---------- the write path ----------

  function InsertRecords(ps: seq<Point>): (r: seq<Record>)
    ensures |r| == |ps|
  {
    seq(|ps|, i requires 0 <= i < |ps| => Insert(ps[i]))
  }

  /** The points of `ps` that satisfy `keep`, in order. */
  function Select(ps: seq<Point>, keep: Point -> bool): seq<Point> {
    if ps == [] then []
    else Select(ps[..|ps| - 1], keep) + if keep(ps[|ps| - 1]) then [ps[|ps| - 1]] else []
  }

  /** What the first point of `ps` with the given ID is stored as. */
  function FirstStored(cfg: Config, ps: seq<Point>, id: string): Slot<Stored> {
    if ps == [] then Absent
    else
      var first := FirstStored(cfg, ps[..|ps| - 1], id);
      if first.Absent? && ps[|ps| - 1].id == id then Live(Store(cfg, ps[|ps| - 1])) else first
  }

  /** Every ID new to the index comes first with the same value in both lists, or in neither. */
  ghost predicate SameFirsts(cfg: Config, idx: Index<Stored>, ps: seq<Point>, qs: seq<Point>) {
    cfg.dimension == 0 || forall id :: id !in idx ==> FirstStored(cfg, ps, id) == FirstStored(cfg, qs, id)
  }

  lemma {:induction false} InsertsBySlot(cfg: Config, idx: Index<Stored>, ps: seq<Point>, id: string)
    requires cfg.dimension > 0 && forall p :: p in ps ==> |p.vector| == cfg.dimension
    ensures Look(Replay(cfg, idx, InsertRecords(ps)), id) == if id in idx then Look(idx, id) else FirstStored(cfg, ps, id)
  {
    if ps != [] {
      var init := ps[..|ps| - 1];
      InsertsBySlot(cfg, idx, init, id);
      assert InsertRecords(ps)[..|ps| - 1] == InsertRecords(init);
      assert ps[|ps| - 1] in ps;
    }
  }

  lemma {:induction false} NothingStored(cfg: Config, idx: Index<Stored>, ps: seq<Point>)
    requires forall p :: p in ps ==> p.vector == []
    ensures Replay(cfg, idx, InsertRecords(ps)) == idx
  {
    if ps != [] {
      NothingStored(cfg, idx, ps[..|ps| - 1]);
      assert InsertRecords(ps)[..|ps| - 1] == InsertRecords(ps[..|ps| - 1]);
      assert ps[|ps| - 1] in ps;
    }
  }

  /** Two lists of inserts leave the same index exactly when their first points agree on every new ID. */
  lemma BatchReplaysExactly(cfg: Config, idx: Index<Stored>, ps: seq<Point>, qs: seq<Point>)
    requires forall p :: p in ps ==> |p.vector| == cfg.dimension
    requires forall q :: q in qs ==> |q.vector| == cfg.dimension
    ensures Replay(cfg, idx, InsertRecords(ps)) == Replay(cfg, idx, InsertRecords(qs)) <==> SameFirsts(cfg, idx, ps, qs)
  {
    if cfg.dimension == 0 {
      NothingStored(cfg, idx, ps);
      NothingStored(cfg, idx, qs);
    } else {
      var a, b := Replay(cfg, idx, InsertRecords(ps)), Replay(cfg, idx, InsertRecords(qs));
      forall id ensures Look(a, id) == Look(b, id) <==> (id !in idx ==> FirstStored(cfg, ps, id) == FirstStored(cfg, qs, id)) {
        InsertsBySlot(cfg, idx, ps, id);
        InsertsBySlot(cfg, idx, qs, id);
      }
      if SameFirsts(cfg, idx, ps, qs) { SameSlots(a, b); }
    }
  }

  /** A point that cannot be serialized is applied by a batch and gone after a restart. */
  lemma UnloggedPointIsLost(cfg: Config, p: Point)
    requires Validate(p) && Fits(cfg, p) && !cfg.serializable(p)
    ensures Contents(Replay(cfg, map[], InsertRecords([p]))) == map[p.id := Store(cfg, p)]
    ensures Replay(cfg, map[], InsertRecords(Select([p], cfg.serializable))) == map[]
  {
    assert InsertRecords([p]) == [Insert(p)];
    ReplayOne(cfg, map[], Insert(p));
    assert [p][..0] == [];
    assert Select([p], cfg.serializable) == [];
  }

  /** The points that satisfy `keep`, one after the other. */
  method Filter(ps: seq<Point>, keep: Point -> bool) returns (kept: seq<Point>)
    ensures kept == Select(ps, keep) && |kept| <= |ps|
  {
    kept := [];
    for i := 0 to |ps|
      invariant kept == Select(ps[..i], keep) && |kept| <= i
    {
      assert ps[..i + 1][..i] == ps[..i];
      if keep(ps[i]) { kept := kept + [ps[i]]; }
    }
    assert ps[..|ps|] == ps;
  }

  lemma InsertNext(cfg: Config, idx: Index<Stored>, ps: seq<Point>, i: nat)
    requires i < |ps|
    ensures Replay(cfg, idx, InsertRecords(ps[..i + 1]))
         == InsertInternal(cfg, Replay(cfg, idx, InsertRecords(ps[..i])), ps[i]).0
  {
    assert InsertRecords(ps[..i + 1])[..i] == InsertRecords(ps[..i]);
  }

  datatype BatchResult = BatchResult(total: nat, succeeded: nat, failed: nat)

  /** A collection with its write-ahead log. */
  class Collection {
    const cfg: Config
    var index: Index<Stored>
    var log: seq<Record>

    constructor (cfg: Config)
      ensures this.cfg == cfg && index == map[] && log == []
      ensures Durable()
    {
      this.cfg := cfg;
      index := map[];
      log := [];
    }

    /** The index is what replaying the log from nothing gives. */
    ghost predicate Durable()
      reads this
    {
      index == Replay(cfg, map[], log)
    }

    /** The effect of `recs` on the index, with `recs` appended to the log. */
    twostate predicate Performed(recs: seq<Record>)
      reads this
    {
      log == old(log) + recs && index == Replay(cfg, old(index), recs)
    }

    twostate lemma StaysDurable(recs: seq<Record>)
      requires old(Durable()) && Performed(recs)
      ensures Durable()
    {
      ReplayConcat(cfg, map[], old(log), recs);
    }

    method Insert(p: Point) returns (r: Outcome)
      modifies this
      ensures Performed(if Validate(p) && cfg.serializable(p) then [Record.Insert(p)] else [])
      ensures old(Durable()) ==> Durable()
      ensures r.Pass? <==> Validate(p) && cfg.serializable(p) && (p.vector == [] || (Fits(cfg, p) && p.id !in old(index)))
      ensures Contents(index) == if r.Pass? && p.vector != [] then Contents(old(index))[p.id := Store(cfg, p)]
                                 else Contents(old(index))
      ensures r.Fail? || p.vector == [] ==> index == old(index)
      ensures r.Pass? && p.vector != [] ==> Held(cfg, index, p)
    {
      var flaw := CheckPoint(p);
      if flaw.Some? {
        if Durable() { StaysDurable([]); }
        return Fail(InvalidPoint);
      }
      if !cfg.serializable(p) {
        if Durable() { StaysDurable([]); }
        return Fail(NotSerializable);
      }
      log := log + [Record.Insert(p)];
      var res := InsertInternal(cfg, index, p);
      index := res.0;
      assert Replay(cfg, old(index), [Record.Insert(p)][..0]) == old(index);
      if old(Durable()) { StaysDurable([Record.Insert(p)]); }
      return res.1;
    }

    /** On an ID that was ever inserted the update deletes the point and then fails. */
    method Upsert(p: Point) returns (r: Outcome)
      modifies this
      ensures Performed(if Upsertable(cfg, p) then [Update(p)] else [])
      ensures old(Durable()) ==> Durable()
      ensures r.Pass? <==> Validate(p) && Fits(cfg, p) && cfg.serializable(p) && p.id !in old(index)
      ensures r.Pass? ==> Contents(index) == Contents(old(index))[p.id := Store(cfg, p)]
      ensures Upsertable(cfg, p) && r.Fail? ==> Contents(index) == Contents(old(index)) - {p.id}
      ensures Upsertable(cfg, p) && Fits(cfg, p) && p.id in old(index) ==> r == Fail(PointExists)
      ensures Held(cfg, index, p) <==>
                if Upsertable(cfg, p) then Fits(cfg, p) && p.id !in old(index) else Held(cfg, old(index), p)
    {
      var flaw := CheckPoint(p);
      if flaw.Some? {
        if Durable() { StaysDurable([]); }
        return Fail(InvalidPoint);
      }
      if |p.vector| != cfg.dimension {
        if Durable() { StaysDurable([]); }
        return Fail(DimensionMismatch);
      }
      if !cfg.serializable(p) {
        if Durable() { StaysDurable([]); }
        return Fail(NotSerializable);
      }
      log := log + [Update(p)];
      var res := UpsertInternal(cfg, index, p);
      index := res.0;
      UpsertContents(cfg, old(index), p);
      ReplayOne(cfg, old(index), Update(p));
      if old(Durable()) { StaysDurable([Update(p)]); }
      return res.1;
    }

    method Delete(id: string) returns (r: Outcome)
      modifies this
      ensures Performed([Record.Delete(id)])
      ensures old(Durable()) ==> Durable()
      ensures Contents(index) == Contents(old(index)) - {id}
      ensures r == if id in old(index) then Pass else Fail(PointNotFound)
    {
      log := log + [Record.Delete(id)];
      var res := DeleteInternal(index, id);
      index := res.0;
      assert Replay(cfg, old(index), [Record.Delete(id)][..0]) == old(index);
      if old(Durable()) { StaysDurable([Record.Delete(id)]); }
      return res.1;
    }

    /**
     A batch logs the valid points it can serialize and applies all valid points, so a point that
     cannot be serialized is reported as failed and applied all the same, and counted twice.
     */
    method InsertBatch(ps: seq<Point>) returns (r: BatchResult)
      modifies this
      ensures var valid := Select(ps, p => Validate(p) && |p.vector| == cfg.dimension);
              && log == old(log) + InsertRecords(Select(valid, cfg.serializable))
              && index == Replay(cfg, old(index), InsertRecords(valid))
              && r.total == |ps|
              && r.succeeded == (if cfg.dimension == 0 then |valid| else |index| - |old(index)|)
              && r.succeeded + r.failed == |ps| + |valid| - |Select(valid, cfg.serializable)|
              && (old(Durable()) ==> (Durable() <==> SameFirsts(cfg, old(index), valid, Select(valid, cfg.serializable))))
    {
      var accept := p => Validate(p) && |p.vector| == cfg.dimension;
      var valid := Filter(ps, accept);
      var logged := Filter(valid, cfg.serializable);
      SelectIn(ps, accept);
      SelectIn(valid, cfg.serializable);
      log := log + InsertRecords(logged);
      var succeeded := ApplyAll(valid);
      var failed := (|ps| - |valid|) + (|valid| - |logged|) + (|valid| - succeeded);
      r := BatchResult(|ps|, succeeded, failed);
      BatchReplaysExactly(cfg, old(index), valid, logged);
      ReplayConcat(cfg, map[], old(log), InsertRecords(logged));
    }

    /** Applies the points one by one and counts the successes. */
    method ApplyAll(valid: seq<Point>) returns (succeeded: nat)
      requires forall p :: p in valid ==> |p.vector| == cfg.dimension
      modifies this`index
      ensures index == Replay(cfg, old(index), InsertRecords(valid))
      ensures succeeded <= |valid|
      ensures succeeded == if cfg.dimension == 0 then |valid| else |index| - |old(index)|
    {
      succeeded := 0;
      for i := 0 to |valid|
        invariant index == Replay(cfg, old(index), InsertRecords(valid[..i])) && succeeded <= i
        invariant succeeded == if cfg.dimension == 0 then i else |index| - |old(index)|
      {
        InsertNext(cfg, old(index), valid, i);
        var res := InsertInternal(cfg, index, valid[i]);
        index := res.0;
        if res.1.Pass? { succeeded := succeeded + 1; }
      }
      assert valid[..|valid|] == valid;
    }

    method Get(id: string) returns (r: Result<Stored, Error>)
      ensures r == if id in Contents(index) then Success(Contents(index)[id]) else Failure(PointNotFound)
    {
      match Look(index, id)
      case Live(v) => return Success(v);
      case _ => return Failure(PointNotFound);
    }
  }

  lemma {:induction false} SelectIn(ps: seq<Point>, keep: Point -> bool)
    ensures forall p :: p in Select(ps, keep) ==> p in ps && keep(p)
  {
    if ps != [] {
      SelectIn(ps[..|ps| - 1], keep);
    }
  }

  /** What was inserted is what is read. */
  method InsertThenGet(c: Collection, p: Point) returns (r: Result<Stored, Error>)
    modifies c
    ensures Validate(p) && Fits(c.cfg, p) && c.cfg.serializable(p) && p.id !in old(c.index) ==>
              r.Success? && r.value.payload == p.payload && r.value.vector == c.cfg.norm(p.vector)
  {
    var _ := c.Insert(p);
    r := c.Get(p.id);
  }

  // ---------- what a log does to one ID ----------

  /** Marks `id` as deleted if it is held. */
  predicate Kills(rec: Record, id: string) {
    (rec.Update? && rec.point.id == id) || (rec.Delete? && rec.id == id)
  }

  ghost predicate Killed(log: seq<Record>, id: string) {
    exists i :: 0 <= i < |log| && Kills(log[i], id)
  }

  function RedoSlot(cfg: Config, x: Slot<Stored>, id: string, rec: Record): Slot<Stored> {
    if x.Live? then (if Kills(rec, id) then Dead(x.value) else x)
    else if x.Absent? && (rec.Insert? || rec.Update?) && rec.point.id == id && Fits(cfg, rec.point)
    then Live(Store(cfg, rec.point))
    else x
  }

  function ReplaySlot(cfg: Config, x: Slot<Stored>, id: string, log: seq<Record>): Slot<Stored> {
    if log == [] then x
    else RedoSlot(cfg, ReplaySlot(cfg, x, id, log[..|log| - 1]), id, log[|log| - 1])
  }

  lemma RedoBySlot(cfg: Config, idx: Index<Stored>, id: string, rec: Record)
    ensures Look(Redo(cfg, idx, rec), id) == RedoSlot(cfg, Look(idx, id), id, rec)
  {
  }

  lemma {:induction false} ReplayBySlot(cfg: Config, idx: Index<Stored>, id: string, log: seq<Record>)
    ensures Look(Replay(cfg, idx, log), id) == ReplaySlot(cfg, Look(idx, id), id, log)
  {
    if log != [] {
      ReplayBySlot(cfg, idx, id, log[..|log| - 1]);
      RedoBySlot(cfg, Replay(cfg, idx, log[..|log| - 1]), id, log[|log| - 1]);
    }
  }

  /** A held point survives a log exactly when the log does not kill it, and a deleted one stays deleted. */
  lemma {:induction false} SlotFate(cfg: Config, x: Slot<Stored>, id: string, log: seq<Record>)
    ensures x.Live? ==> ReplaySlot(cfg, x, id, log) == if Killed(log, id) then Dead(x.value) else x
    ensures x.Dead? ==> ReplaySlot(cfg, x, id, log) == x
  {
    if log != [] {
      var init := log[..|log| - 1];
      SlotFate(cfg, x, id, init);
      assert Killed(log, id) <==> Killed(init, id) || Kills(log[|log| - 1], id) by {
        if Killed(init, id) {
          var i :| 0 <= i < |init| && Kills(init[i], id);
          assert log[i] == init[i];
        }
        if Killed(log, id) {
          var i :| 0 <= i < |log| && Kills(log[i], id);
          if i < |init| { assert init[i] == log[i]; }
        }
      }
    }
  }

  lemma {:induction false} ReplaySlotConcat(cfg: Config, x: Slot<Stored>, id: string, a: seq<Record>, b: seq<Record>)
    ensures ReplaySlot(cfg, x, id, a + b) == ReplaySlot(cfg, ReplaySlot(cfg, x, id, a), id, b)
  {
    if b == [] {
      assert a + b == a;
    } else {
      var init := b[..|b| - 1];
      assert (a + b)[..|a + b| - 1] == a + init;
      ReplaySlotConcat(cfg, x, id, a, init);
    }
  }

  lemma KilledConcat(a: seq<Record>, b: seq<Record>, id: string)
    ensures Killed(a + b, id) <==> Killed(a, id) || Killed(b, id)
  {
    if Killed(a, id) {
      var i :| 0 <= i < |a| && Kills(a[i], id);
      assert Kills((a + b)[i], id);
    }
    if Killed(b, id) {
      var i :| 0 <= i < |b| && Kills(b[i], id);
      assert Kills((a + b)[|a| + i], id);
    }
    if Killed(a + b, id) {
      var i :| 0 <= i < |a + b| && Kills((a + b)[i], id);
      assert Kills(if i < |a| then a[i] else b[i - |a|], id);
    }
  }

  // ---------- what the writes of a log leave ----------

  /** Brings a point with this ID into an index that has never held it. */
  predicate Stores(cfg: Config, rec: Record, id: string) {
    (rec.Insert? || rec.Update?) && rec.point.id == id && |rec.point.vector| == cfg.dimension > 0
  }

  /** Record `k` is the first of the log that brings `id`. */
  ghost predicate FirstStores(cfg: Config, log: seq<Record>, id: string, k: int) {
    0 <= k < |log| && Stores(cfg, log[k], id) && forall i :: 0 <= i < k ==> !Stores(cfg, log[i], id)
  }

  /** The first record to bring `id` is `k`, and no later one updates or deletes it. */
  ghost predicate Stands(cfg: Config, log: seq<Record>, id: string, k: int) {
    FirstStores(cfg, log, id, k) && forall i :: k < i < |log| ==> !Kills(log[i], id)
  }

  /**
   The index holds exactly the points that stand in the log, with their payloads and their normalized vectors.
   This speaks of the records alone and not of how they are replayed.
   */
  ghost predicate HoldsWritten(cfg: Config, idx: Index<Stored>, log: seq<Record>) {
    && (forall id :: id in Contents(idx) <==> exists k :: Stands(cfg, log, id, k))
    && forall id, k :: Stands(cfg, log, id, k) ==> Held(cfg, idx, log[k].point)
  }

  /** What one slot has come to: absent until its ID is first brought, then live until it is killed. */
  ghost predicate SlotWritten(cfg: Config, x: Slot<Stored>, log: seq<Record>, id: string) {
    match x
    case Absent => forall i :: 0 <= i < |log| ==> !Stores(cfg, log[i], id)
    case Live(v) => exists k :: Stands(cfg, log, id, k) && v == Stored(cfg.norm(log[k].point.vector), log[k].point.payload)
    case Dead(v) => exists k, i :: FirstStores(cfg, log, id, k) && k < i < |log| && Kills(log[i], id)
  }

  lemma StandsOn(cfg: Config, log: seq<Record>, rec: Record, id: string, k: int)
    requires 0 <= k < |log|
    ensures FirstStores(cfg, log + [rec], id, k) <==> FirstStores(cfg, log, id, k)
    ensures Stands(cfg, log + [rec], id, k) <==> Stands(cfg, log, id, k) && !Kills(rec, id)
  {
    var longer := log + [rec];
    assert forall i :: 0 <= i < |log| ==> longer[i] == log[i];
    assert longer[|log|] == rec;
  }

  lemma SlotNext(cfg: Config, x: Slot<Stored>, log: seq<Record>, rec: Record, id: string)
    requires SlotWritten(cfg, x, log, id)
    ensures SlotWritten(cfg, RedoSlot(cfg, x, id, rec), log + [rec], id)
  {
    var longer := log + [rec];
    assert longer[|log|] == rec && forall i :: 0 <= i < |log| ==> longer[i] == log[i];
    match x {
      case Absent =>
        if Stores(cfg, rec, id) { assert Stands(cfg, longer, id, |log|); }
      case Live(v) =>
        var k :| Stands(cfg, log, id, k) && v == Stored(cfg.norm(log[k].point.vector), log[k].point.payload);
        StandsOn(cfg, log, rec, id, k);
        if Kills(rec, id) { assert FirstStores(cfg, longer, id, k) && Kills(longer[|log|], id); }
      case Dead(v) =>
        var k, i :| FirstStores(cfg, log, id, k) && k < i < |log| && Kills(log[i], id);
        StandsOn(cfg, log, rec, id, k);
        assert FirstStores(cfg, longer, id, k) && Kills(longer[i], id);
    }
  }

  lemma {:induction false} SlotsWritten(cfg: Config, log: seq<Record>, id: string)
    ensures SlotWritten(cfg, ReplaySlot(cfg, Absent, id, log), log, id)
  {
    if log != [] {
      var init, last := log[..|log| - 1], log[|log| - 1];
      SlotsWritten(cfg, init, id);
      SlotNext(cfg, ReplaySlot(cfg, Absent, id, init), init, last, id);
      assert log == init + [last];
    }
  }

  lemma OneStands(cfg: Config, log: seq<Record>, id: string, k: int, j: int)
    requires FirstStores(cfg, log, id, k) && FirstStores(cfg, log, id, j)
    ensures k == j
  {
    assert !(k < j) && !(j < k);
  }

  /** What a reader of one ID gets, by the slot it has come to. */
  lemma ReadsWritten(cfg: Config, idx: Index<Stored>, log: seq<Record>, id: string)
    requires SlotWritten(cfg, Look(idx, id), log, id)
    ensures id in Contents(idx) <==> exists k :: Stands(cfg, log, id, k)
    ensures forall k :: Stands(cfg, log, id, k) ==> Held(cfg, idx, log[k].point)
  {
    forall k | Stands(cfg, log, id, k) ensures Held(cfg, idx, log[k].point) {
      if Look(idx, id).Live? {
        var v := Look(idx, id).value;
        var j :| Stands(cfg, log, id, j) && v == Stored(cfg.norm(log[j].point.vector), log[j].point.payload);
        OneStands(cfg, log, id, k, j);
      }
    }
  }

  /** Replaying a log over nothing leaves exactly what its writes leave. */
  lemma ReplayHoldsWritten(cfg: Config, log: seq<Record>)
    ensures HoldsWritten(cfg, Replay(cfg, map[], log), log)
  {
    var idx := Replay(cfg, map[], log);
    forall id
      ensures id in Contents(idx) <==> exists k :: Stands(cfg, log, id, k)
      ensures forall k :: Stands(cfg, log, id, k) ==> Held(cfg, idx, log[k].point)
    {
      ReplayBySlot(cfg, map[], id, log);
      SlotsWritten(cfg, log, id);
      ReadsWritten(cfg, idx, log, id);
    }
  }

  lemma SameHeld(cfg: Config, a: Index<Stored>, b: Index<Stored>, p: Point)
    requires Held(cfg, a, p) && Held(cfg, b, p)
    ensures Contents(a)[p.id] == Contents(b)[p.id]
  {
  }

  lemma SameWritten(cfg: Config, a: Index<Stored>, b: Index<Stored>, log: seq<Record>, id: string)
    requires HoldsWritten(cfg, a, log) && HoldsWritten(cfg, b, log)
    ensures id in Contents(a) <==> id in Contents(b)
    ensures id in Contents(a) ==> Contents(a)[id] == Contents(b)[id]
  {
    if k :| Stands(cfg, log, id, k) {
      SameHeld(cfg, a, b, log[k].point);
    }
  }

  /** An index holds what the writes leave exactly when it holds what the replay over nothing gives. */
  lemma HoldsWrittenExactly(cfg: Config, idx: Index<Stored>, log: seq<Record>)
    ensures HoldsWritten(cfg, idx, log) <==> Contents(idx) == Contents(Replay(cfg, map[], log))
  {
    var full := Replay(cfg, map[], log);
    ReplayHoldsWritten(cfg, log);
    if HoldsWritten(cfg, idx, log) {
      forall id
        ensures id in Contents(idx) <==> id in Contents(full)
        ensures id in Contents(idx) ==> Contents(idx)[id] == Contents(full)[id]
      {
        SameWritten(cfg, idx, full, log, id);
      }
    }
  }

  // ---------- recovery ----------

  /** The index saved after `t` records and replayed with the whole log. */
  function Recovered(cfg: Config, log: seq<Record>, t: nat): Index<Stored>
    requires t <= |log|
  {
    Replay(cfg, Replay(cfg, map[], log[..t]), log)
  }

  /** Every point held at the save that was updated or deleted before the save is so again after it. */
  ghost predicate Recoverable(cfg: Config, log: seq<Record>, t: nat)
    requires t <= |log|
  {
    forall id :: id in Contents(Replay(cfg, map[], log[..t])) && Killed(log[..t], id) ==> Killed(log[t..], id)
  }

  lemma RecoverySlot(cfg: Config, log: seq<Record>, t: nat, id: string)
    requires t <= |log|
    ensures var held := id in Contents(Replay(cfg, map[], log[..t]));
            Look(Recovered(cfg, log, t), id) == Look(Replay(cfg, map[], log), id) <==>
            (held && Killed(log[..t], id) ==> Killed(log[t..], id))
  {
    var a, b := log[..t], log[t..];
    assert log == a + b;
    ReplayBySlot(cfg, map[], id, a);
    ReplayBySlot(cfg, map[], id, log);
    ReplayBySlot(cfg, Replay(cfg, map[], a), id, log);
    var saved := ReplaySlot(cfg, Absent, id, a);
    ReplaySlotConcat(cfg, Absent, id, a, b);
    SlotFate(cfg, saved, id, b);
    SlotFate(cfg, saved, id, log);
    KilledConcat(a, b, id);
  }

  lemma SlotOfContents(a: Index<Stored>, b: Index<Stored>, id: string)
    ensures Look(a, id) == Look(b, id) ==> (id in Contents(a) <==> id in Contents(b))
    ensures Look(a, id) == Look(b, id) && id in Contents(a) ==> Contents(a)[id] == Contents(b)[id]
    ensures Look(a, id).Live? <==> id in Contents(a)
  {
  }

  lemma RecoveredSame(cfg: Config, log: seq<Record>, t: nat)
    requires t <= |log| && Recoverable(cfg, log, t)
    ensures Recovered(cfg, log, t) == Replay(cfg, map[], log)
  {
    var r, f := Recovered(cfg, log, t), Replay(cfg, map[], log);
    forall id ensures Look(r, id) == Look(f, id) { RecoverySlot(cfg, log, t, id); }
    SameSlots(r, f);
  }

  /** A point held at the save, killed before it and not after it, is live and gets lost. */
  lemma LostPoint(cfg: Config, log: seq<Record>, t: nat, id: string)
    requires t <= |log| && id in Contents(Replay(cfg, map[], log[..t]))
    requires Killed(log[..t], id) && !Killed(log[t..], id)
    ensures id in Contents(Replay(cfg, map[], log)) && id !in Contents(Recovered(cfg, log, t))
  {
    var a, b := log[..t], log[t..];
    assert log == a + b;
    ReplayBySlot(cfg, map[], id, a);
    ReplayBySlot(cfg, map[], id, log);
    ReplayBySlot(cfg, Replay(cfg, map[], a), id, log);
    ReplaySlotConcat(cfg, Absent, id, a, b);
    var saved := ReplaySlot(cfg, Absent, id, a);
    SlotFate(cfg, saved, id, b);
    SlotFate(cfg, saved, id, log);
    KilledConcat(a, b, id);
    SlotOfContents(Replay(cfg, map[], log), Recovered(cfg, log, t), id);
  }

  /** Recovery from a save gives the live points exactly when no point falls between an old kill and the save. */
  lemma RecoveryExactly(cfg: Config, log: seq<Record>, t: nat)
    requires t <= |log|
    ensures Contents(Recovered(cfg, log, t)) == Contents(Replay(cfg, map[], log)) <==> Recoverable(cfg, log, t)
    ensures HoldsWritten(cfg, Recovered(cfg, log, t), log) <==> Recoverable(cfg, log, t)
    ensures Recoverable(cfg, log, t) ==> Recovered(cfg, log, t) == Replay(cfg, map[], log)
  {
    HoldsWrittenExactly(cfg, Recovered(cfg, log, t), log);
    if Recoverable(cfg, log, t) {
      RecoveredSame(cfg, log, t);
    } else {
      var id :| id in Contents(Replay(cfg, map[], log[..t])) && Killed(log[..t], id) && !Killed(log[t..], id);
      LostPoint(cfg, log, t, id);
    }
  }

  /** Replaying a log again changes nothing exactly when it kills no point that its replay leaves. */
  lemma ReplayAgainExactly(cfg: Config, idx: Index<Stored>, log: seq<Record>)
    ensures var once := Replay(cfg, idx, log);
            Replay(cfg, once, log) == once <==> forall id :: id in Contents(once) ==> !Killed(log, id)
  {
    var once := Replay(cfg, idx, log);
    var twice := Replay(cfg, once, log);
    forall id
      ensures Look(twice, id) == Look(once, id) <==> (id in Contents(once) ==> !Killed(log, id))
    {
      ReplayBySlot(cfg, idx, id, log);
      ReplayBySlot(cfg, once, id, log);
      SlotFate(cfg, Look(once, id), id, log);
      if Look(once, id).Absent? { AbsentAgain(cfg, Look(idx, id), id, log); }
    }
    if forall id :: id in Contents(once) ==> !Killed(log, id) {
      SameSlots(twice, once);
    }
  }

  /** What a log leaves absent was absent before, so replaying the log leaves it absent again. */
  lemma {:induction false} AbsentAgain(cfg: Config, x: Slot<Stored>, id: string, log: seq<Record>)
    requires ReplaySlot(cfg, x, id, log).Absent?
    ensures x.Absent? && ReplaySlot(cfg, Absent, id, log).Absent?
  {
    if log != [] {
      AbsentAgain(cfg, x, id, log[..|log| - 1]);
    }
  }

  /** A point that came in by an upsert and is in the save is lost by recovery. */
  lemma UpsertedPointIsLost(cfg: Config, p: Point)
    requires Fits(cfg, p)
    ensures var log := [Update(p)];
            && Contents(Replay(cfg, map[], log)) == map[p.id := Store(cfg, p)]
            && Contents(Recovered(cfg, log, 1)) == map[]
  {
    var log := [Update(p)];
    assert log[..0] == [] && log[..1] == log;
    var once := Replay(cfg, map[], log);
    assert once == Redo(cfg, Replay(cfg, map[], log[..0]), Update(p));
    assert Replay(cfg, once, log) == Redo(cfg, Replay(cfg, once, log[..0]), Update(p));
  }

  // ---------- an index whose delete frees the ID ----------

  type Erasing = map<string, Stored>

  function RedoErasing(cfg: Config, m: Erasing, rec: Record): Erasing {
    match rec
    case Insert(p) => if Fits(cfg, p) && p.id !in m then m[p.id := Store(cfg, p)] else m
    case Update(p) => if Fits(cfg, p) then m[p.id := Store(cfg, p)] else m - {p.id}
    case Delete(id) => m - {id}
    case Checkpoint => m
  }

  function ReplayErasing(cfg: Config, m: Erasing, log: seq<Record>): Erasing {
    if log == [] then m
    else RedoErasing(cfg, ReplayErasing(cfg, m, log[..|log| - 1]), log[|log| - 1])
  }

  /** `a` and `b` agree on `id`. */
  predicate AgreeOn(a: Erasing, b: Erasing, id: string) {
    (id in a <==> id in b) && (id in a ==> a[id] == b[id])
  }

  /** Once a log has updated or deleted an ID, what was there before does not matter; and agreement lasts. */
  lemma {:induction false} ErasingForgets(cfg: Config, a: Erasing, b: Erasing, log: seq<Record>, id: string)
    requires Killed(log, id) || AgreeOn(a, b, id)
    ensures AgreeOn(ReplayErasing(cfg, a, log), ReplayErasing(cfg, b, log), id)
  {
    if log != [] {
      var init := log[..|log| - 1];
      if !Kills(log[|log| - 1], id) {
        if Killed(log, id) {
          var i :| 0 <= i < |log| && Kills(log[i], id);
          assert Kills(init[i], id);
        }
        ErasingForgets(cfg, a, b, init, id);
      }
    }
  }

  /** A log of inserts alone keeps what is there. */
  lemma {:induction false} ErasingKeeps(cfg: Config, m: Erasing, log: seq<Record>, id: string)
    requires !Killed(log, id) && id in m
    ensures AgreeOn(ReplayErasing(cfg, m, log), m, id)
  {
    if log != [] {
      var init := log[..|log| - 1];
      assert !Killed(init, id) by {
        assert forall i :: 0 <= i < |init| ==> init[i] == log[i];
      }
      assert !Kills(log[|log| - 1], id);
      ErasingKeeps(cfg, m, init, id);
    }
  }

  lemma {:induction false} ReplayErasingConcat(cfg: Config, m: Erasing, a: seq<Record>, b: seq<Record>)
    ensures ReplayErasing(cfg, m, a + b) == ReplayErasing(cfg, ReplayErasing(cfg, m, a), b)
  {
    if b == [] {
      assert a + b == a;
    } else {
      var init := b[..|b| - 1];
      assert (a + b)[..|a + b| - 1] == a + init;
      ReplayErasingConcat(cfg, m, a, init);
    }
  }

  /** Over such an index recovery is exact from every save, and replaying the log again changes nothing. */
  lemma ErasingRecovers(cfg: Config, log: seq<Record>, t: nat)
    requires t <= |log|
    ensures ReplayErasing(cfg, ReplayErasing(cfg, map[], log[..t]), log) == ReplayErasing(cfg, map[], log)
  {
    var a, b := log[..t], log[t..];
    assert log == a + b;
    var saved := ReplayErasing(cfg, map[], a);
    var r, f := ReplayErasing(cfg, saved, log), ReplayErasing(cfg, map[], log);
    forall id
      ensures AgreeOn(r, f, id)
    {
      if Killed(log, id) || id !in saved {
        ErasingForgets(cfg, saved, map[], log, id);
      } else {
        KilledConcat(a, b, id);
        ErasingKeeps(cfg, saved, log, id);
        ErasingKeeps(cfg, saved, b, id);
        ReplayErasingConcat(cfg, map[], a, b);
      }
    }
    assert r.Keys == f.Keys by {
      forall id ensures id in r.Keys <==> id in f.Keys { assert AgreeOn(r, f, id); }
    }
    forall id | id in r ensures r[id] == f[id] { assert AgreeOn(r, f, id); }
  }

  // ---------- replay over all collections ----------

  /** A log record as the write-ahead log delivers it; `readable` says that its point could be decoded. */
  datatype WalRecord = WalRecord(collection: string, record: Record, readable: bool)

  /** The records that reach the collection `name`. */
  function RecordsFor(log: seq<WalRecord>, name: string): seq<Record> {
    if log == [] then []
    else
      var last := log[|log| - 1];
      RecordsFor(log[..|log| - 1], name) + if last.collection == name && last.readable then [last.record] else []
  }

  /** The records of a log in two parts are those of the parts; a single record counts when it is readable and `name`'s. */
  lemma {:induction false} RecordsForParts(a: seq<WalRecord>, b: seq<WalRecord>, w: WalRecord, name: string)
    ensures RecordsFor(a + b, name) == RecordsFor(a, name) + RecordsFor(b, name)
    ensures RecordsFor([w], name) == if w.collection == name && w.readable then [w.record] else []
    decreases |b|
  {
    assert [w][..0] == [] && RecordsFor([], name) == [];
    if b == [] {
      assert a + b == a;
      assert RecordsFor(a, name) + [] == RecordsFor(a, name);
    } else {
      var init, last := b[..|b| - 1], b[|b| - 1];
      RecordsForParts(a, init, w, name);
      assert (a + b)[..|a + b| - 1] == a + init && (a + b)[|a + b| - 1] == last;
      Associate(RecordsFor(a, name), RecordsFor(init, name),
                if last.collection == name && last.readable then [last.record] else []);
    }
  }

  /** What `w` adds to the records of `name` is what it does to the index of `name`. */
  lemma ReplayNext(cfg: Config, idx: Index<Stored>, log: seq<WalRecord>, w: WalRecord, name: string)
    ensures Replay(cfg, idx, RecordsFor(log + [w], name)) ==
            var now := Replay(cfg, idx, RecordsFor(log, name));
            if w.collection == name && w.readable then Redo(cfg, now, w.record) else now
  {
    assert (log + [w])[..|log|] == log;
    var recs := RecordsFor(log, name);
    assert (recs + [w.record])[..|recs|] == recs;
    assert recs + [] == recs;
  }

  /** Every collection has seen exactly its own readable records of `log`, in order. */
  ghost predicate Replayed(cfgs: map<string, Config>, before: map<string, Index<Stored>>,
                           now: map<string, Index<Stored>>, log: seq<WalRecord>)
  {
    && now.Keys == before.Keys == cfgs.Keys
    && forall name :: name in cfgs ==> now[name] == Replay(cfgs[name], before[name], RecordsFor(log, name))
  }

  lemma ReplayedNext(cfgs: map<string, Config>, before: map<string, Index<Stored>>,
                     now: map<string, Index<Stored>>, log: seq<WalRecord>, w: WalRecord, next: map<string, Index<Stored>>)
    requires Replayed(cfgs, before, now, log)
    requires next == if w.collection in now && w.readable
                     then now[w.collection := Redo(cfgs[w.collection], now[w.collection], w.record)] else now
    ensures Replayed(cfgs, before, next, log + [w])
  {
    forall name | name in cfgs ensures next[name] == Replay(cfgs[name], before[name], RecordsFor(log + [w], name)) {
      ReplayNext(cfgs[name], before[name], log, w, name);
    }
  }

  class Manager {
    const cfgs: map<string, Config>
    var collections: map<string, Index<Stored>>

    constructor (cfgs: map<string, Config>, saved: map<string, Index<Stored>>)
      requires saved.Keys == cfgs.Keys
      ensures Valid() && this.cfgs == cfgs && collections == saved
    {
      this.cfgs := cfgs;
      collections := saved;
    }

    ghost predicate Valid()
      reads this
    {
      collections.Keys == cfgs.Keys
    }

    /** Every collection sees exactly its own readable records; the rest of the log is skipped. */
    method ReplayWAL(log: seq<WalRecord>)
      requires Valid()
      modifies this
      ensures Valid()
      ensures Replayed(cfgs, old(collections), collections, log)
    {
      for i := 0 to |log|
        invariant Replayed(cfgs, old(collections), collections, log[..i])
      {
        var w := log[i];
        ghost var now := collections;
        if w.collection in collections && w.readable {
          var name := w.collection;
          collections := collections[name := Redo(cfgs[name], collections[name], w.record)];
        }
        assert log[..i + 1] == log[..i] + [w];
        ReplayedNext(cfgs, old(collections), now, log[..i], w, collections);
      }
      assert log[..|log|] == log;
    }
  }
}
