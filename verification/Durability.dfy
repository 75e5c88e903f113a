/**
 From a collection's writes to the bytes on disk and back: the point format, the write-ahead log and recovery put
 together.

 A write of pkg/collection/collection.go encodes its point and logs a record; processes crash, each cutting its
 last segment at any byte; and pkg/collection/recovery.go replays what the log still gives over a saved index.
 */
module Durability {
  import opened Bytes
  import opened Wrappers
  import PointCodec
  import PointIndex
  import Recovery
  import Wal
  import WalCrash

  const INSERT: byte := 1
  const UPDATE: byte := 2
  const DELETE: byte := 3
  const CHECKPOINT: byte := 4

  /** How the bytes of points and names are read: the JSON codec, what a collection sees of a point, and text. */
  datatype View<!P> = View(json: PointCodec.Json<P>, point: PointCodec.Point<P> -> Recovery.Point, text: Bytes -> string)

  datatype Change<P> = Insert(p: PointCodec.Point<P>) | Upsert(p: PointCodec.Point<P>) | Delete(id: Bytes)

  /** One change of one collection. */
  datatype Entry<P> = Entry(collection: Bytes, change: Change<P>)

  /** What a change means to its collection. */
  function Meaning<P>(view: View<P>, e: Entry<P>): Recovery.WalRecord {
    var record :=
      match e.change
      case Insert(p) => Recovery.Insert(view.point(p))
      case Upsert(p) => Recovery.Update(view.point(p))
      case Delete(id) => Recovery.Delete(view.text(id));
    Recovery.WalRecord(view.text(e.collection), record, true)
  }

  /** The point can be encoded, and `data` is its encoding, in some order of the named vectors. */
  ghost predicate Encodes<P>(view: View<P>, p: PointCodec.Point<P>, data: Bytes) {
    exists order :: PointCodec.IsWalk(order, p.named) && PointCodec.Fits(view.json, p)
                    && data == PointCodec.Encode(view.json, p, order).value
  }

  /** The record that the write path logs for a change. */
  ghost predicate Logs<P>(view: View<P>, e: Entry<P>, r: Wal.Record) {
    && r.collection == e.collection
    && match e.change
       case Insert(p) => r.kind == INSERT && Encodes(view, p, r.data)
       case Upsert(p) => r.kind == UPDATE && Encodes(view, p, r.data)
       case Delete(id) => r.kind == DELETE && r.data == id
  }

  /** What the replay callback makes of a record; records it cannot read or does not know have no effect. */
  function Parse<P>(view: View<P>, r: Wal.Record): Recovery.WalRecord {
    var name, nothing := view.text(r.collection), Recovery.WalRecord(view.text(r.collection), Recovery.Checkpoint, false);
    if r.kind == INSERT || r.kind == UPDATE then
      match PointCodec.Decode(view.json, r.data)
      case None => nothing
      case Some(p) =>
        var point := view.point(p);
        Recovery.WalRecord(name, if r.kind == INSERT then Recovery.Insert(point) else Recovery.Update(point), true)
    else if r.kind == DELETE then Recovery.WalRecord(name, Recovery.Delete(view.text(r.data)), true)
    else if r.kind == CHECKPOINT then Recovery.WalRecord(name, Recovery.Checkpoint, true)
    else nothing
  }

  // ---------- one record ----------

  /** What decoding the encoding of `p` gives. */
  function Reread<P>(view: View<P>, p: PointCodec.Point<P>): Option<PointCodec.Point<P>> {
    if view.json.marshal(p.payload).None? then None
    else
      var payload := PointCodec.Unmarshal(view.json, view.json.marshal(p.payload).value);
      if payload.None? || PointCodec.SparseRead(p).None? then None
      else Some(p.(payload := payload.value, sparse := PointCodec.SparseRead(p).value, multi := map[]))
  }

  /** The collection sees the same point after an encoding and a decoding. */
  predicate SurvivesPoint<P>(view: View<P>, p: PointCodec.Point<P>) {
    Reread(view, p).Some? && view.point(Reread(view, p).value) == view.point(p)
  }

  predicate SurvivesEntry<P>(view: View<P>, e: Entry<P>) {
    match e.change
    case Insert(p) => SurvivesPoint(view, p)
    case Upsert(p) => SurvivesPoint(view, p)
    case Delete(_) => true
  }

  lemma DecodesTo<P>(view: View<P>, p: PointCodec.Point<P>, data: Bytes)
    requires Encodes(view, p, data)
    ensures PointCodec.Decode(view.json, data) == Reread(view, p)
  {
    var order :| PointCodec.IsWalk(order, p.named) && PointCodec.Fits(view.json, p)
                 && data == PointCodec.Encode(view.json, p, order).value;
    PointCodec.DecodeEncode(view.json, p, order);
  }

  /** A logged change is replayed with its meaning exactly when its point survives the format. */
  lemma ParsesBackExactly<P>(view: View<P>, e: Entry<P>, r: Wal.Record)
    requires Logs(view, e, r)
    ensures Parse(view, r) == Meaning(view, e) <==> SurvivesEntry(view, e)
  {
    match e.change
    case Insert(p) => DecodesTo(view, p, r.data);
    case Upsert(p) => DecodesTo(view, p, r.data);
    case Delete(_) =>
  }

  /** Points that the format restores survive. */
  lemma RestorableSurvives<P>(view: View<P>, p: PointCodec.Point<P>)
    requires PointCodec.Restorable(view.json, p)
    ensures SurvivesPoint(view, p)
  {
    if p.sparse.Some? {
      var s := p.sparse.value;
      assert s.values[..|s.indices|] == s.values;
    }
    assert Reread(view, p) == Some(p);
  }

  // ---------- the whole log ----------

  function Parsed<P>(view: View<P>, rs: seq<Wal.Record>): (log: seq<Recovery.WalRecord>)
    ensures |log| == |rs| && forall i :: 0 <= i < |rs| ==> log[i] == Parse(view, rs[i])
  {
    seq(|rs|, i requires 0 <= i < |rs| => Parse(view, rs[i]))
  }

  function Meanings<P>(view: View<P>, es: seq<Entry<P>>): (log: seq<Recovery.WalRecord>)
    ensures |log| == |es| && forall i :: 0 <= i < |es| ==> log[i] == Meaning(view, es[i])
  {
    seq(|es|, i requires 0 <= i < |es| => Meaning(view, es[i]))
  }

  /** The changes of one process, and what became of its log. */
  datatype Era<P> = Era(changes: seq<Entry<P>>, life: WalCrash.Life)

  /** Every record that the process meant to write logs its change, and the changes survive the format. */
  ghost predicate Faithful<P>(view: View<P>, era: Era<P>) {
    var meant := Wal.Completed(WalCrash.Pieces(era.life.writes));
    && |meant| == |era.changes|
    && forall i :: 0 <= i < |meant| ==> Logs(view, era.changes[i], meant[i]) && SurvivesEntry(view, era.changes[i])
  }

  function Lives<P>(eras: seq<Era<P>>): seq<WalCrash.Life> {
    if eras == [] then [] else Lives(eras[..|eras| - 1]) + [eras[|eras| - 1].life]
  }

  /** The changes of the complete writes of one process. */
  function KeptOf<P>(era: Era<P>): seq<Entry<P>>
  {
    var n := |WalCrash.SurvivorsOf(era.life)|;
    if n <= |era.changes| then era.changes[..n] else era.changes
  }

  function Kept<P>(eras: seq<Era<P>>): seq<Entry<P>> {
    if eras == [] then [] else Kept(eras[..|eras| - 1]) + KeptOf(eras[|eras| - 1])
  }

  ghost predicate AllFaithful<P>(view: View<P>, eras: seq<Era<P>>) {
    eras == [] || (AllFaithful(view, eras[..|eras| - 1]) && Faithful(view, eras[|eras| - 1]))
  }

  lemma {:induction false} SurvivorsArePrefix(ps: seq<Wal.Piece<Wal.Record>>, c: nat)
    ensures Wal.Survivors(ps, c) <= Wal.Completed(ps)
    decreases |ps|
  {
    if ps != [] && c >= |Wal.Render(ps[0])| {
      SurvivorsArePrefix(ps[1..], c - |Wal.Render(ps[0])|);
    }
  }

  lemma EraParses<P>(view: View<P>, era: Era<P>)
    requires Faithful(view, era)
    ensures Parsed(view, WalCrash.SurvivorsOf(era.life)) == Meanings(view, KeptOf(era))
  {
    var meant, rs := Wal.Completed(WalCrash.Pieces(era.life.writes)), WalCrash.SurvivorsOf(era.life);
    SurvivorsArePrefix(WalCrash.Pieces(era.life.writes), |WalCrash.Kept(era.life.segments)|);
    forall i | 0 <= i < |rs| ensures Parse(view, rs[i]) == Meaning(view, KeptOf(era)[i]) {
      assert rs[i] == meant[i];
      ParsesBackExactly(view, era.changes[i], meant[i]);
    }
  }

  lemma ParsedConcat<P>(view: View<P>, a: seq<Wal.Record>, b: seq<Wal.Record>)
    ensures Parsed(view, a + b) == Parsed(view, a) + Parsed(view, b)
  {
  }

  lemma MeaningsConcat<P>(view: View<P>, a: seq<Entry<P>>, b: seq<Entry<P>>)
    ensures Meanings(view, a + b) == Meanings(view, a) + Meanings(view, b)
  {
  }

  lemma {:induction false} ErasParse<P>(view: View<P>, eras: seq<Era<P>>)
    requires AllFaithful(view, eras)
    ensures Parsed(view, WalCrash.AllSurvivors(Lives(eras))) == Meanings(view, Kept(eras))
  {
    if eras != [] {
      var n := |eras| - 1;
      ErasParse(view, eras[..n]);
      EraParses(view, eras[n]);
      assert Lives(eras)[..|Lives(eras)| - 1] == Lives(eras[..n]);
      ParsedConcat(view, WalCrash.AllSurvivors(Lives(eras[..n])), WalCrash.SurvivorsOf(eras[n].life));
      MeaningsConcat(view, Kept(eras[..n]), KeptOf(eras[n]));
    }
  }

  /** The log on disk is one that the replay delivers in full: clean cuts, and no single write behind a torn batch. */
  ghost predicate Deliverable<P>(eras: seq<Era<P>>) {
    WalCrash.AllClean(WalCrash.AllSegments(Lives(eras))) && Wal.Clean(WalCrash.AllLeft(Lives(eras)))
  }

  /** What recovery of collection `name` makes of an index and what the log delivers. */
  function Recover<P>(view: View<P>, cfg: Recovery.Config, name: string, saved: PointIndex.Index<Recovery.Stored>,
                      out: seq<Wal.Record>): PointIndex.Index<Recovery.Stored>
  {
    Recovery.Replay(cfg, saved, Recovery.RecordsFor(Parsed(view, out), name))
  }

  /** The changes of collection `name` whose writes are complete on disk. */
  function ChangesOf<P>(view: View<P>, eras: seq<Era<P>>, name: string): seq<Recovery.Record> {
    Recovery.RecordsFor(Meanings(view, Kept(eras)), name)
  }

  /** From the bytes that any number of crashes leave, each collection gets exactly the changes of the complete writes. */
  lemma ReplayGivesChanges<P>(view: View<P>, crc: Bytes -> u32, eras: seq<Era<P>>, name: string)
    returns (out: seq<Wal.Record>)
    requires AllFaithful(view, eras) && WalCrash.AllLived(crc, Lives(eras)) && Deliverable(eras)
    ensures WalCrash.AllPossible(crc, WalCrash.AllSegments(Lives(eras)))
    ensures Wal.Replayed(crc, WalCrash.OnDisk(crc, WalCrash.AllSegments(Lives(eras)))) == Some(out)
    ensures Recovery.RecordsFor(Parsed(view, out), name) == ChangesOf(view, eras, name)
  {
    out := WalCrash.AllSurvivors(Lives(eras));
    WalCrash.CrashesDeliverExactly(crc, Lives(eras));
    ErasParse(view, eras);
  }

  /**
   Writes, crashes and recovery end to end: over the index saved after the first `t` of its changes, the recovered
   collection holds exactly what the complete writes leave, payloads and normalized vectors included, if and only if
   every point held at the save that was updated or deleted before it is so again after it.  Without a saved index it
   always does.
   */
  lemma RecoversExactly<P>(view: View<P>, crc: Bytes -> u32, eras: seq<Era<P>>, cfg: Recovery.Config, name: string, t: nat)
    returns (out: seq<Wal.Record>)
    requires AllFaithful(view, eras) && WalCrash.AllLived(crc, Lives(eras)) && Deliverable(eras)
    requires t <= |ChangesOf(view, eras, name)|
    ensures WalCrash.AllPossible(crc, WalCrash.AllSegments(Lives(eras)))
    ensures Wal.Replayed(crc, WalCrash.OnDisk(crc, WalCrash.AllSegments(Lives(eras)))) == Some(out)
    ensures var log := ChangesOf(view, eras, name);
            var saved := Recovery.Replay(cfg, map[], log[..t]);
            Recovery.HoldsWritten(cfg, Recover(view, cfg, name, saved, out), log) <==> Recovery.Recoverable(cfg, log, t)
    ensures Recovery.HoldsWritten(cfg, Recover(view, cfg, name, map[], out), ChangesOf(view, eras, name))
    ensures Recover(view, cfg, name, map[], out) == Recovery.Replay(cfg, map[], ChangesOf(view, eras, name))
  {
    out := ReplayGivesChanges(view, crc, eras, name);
    Recovery.RecoveryExactly(cfg, ChangesOf(view, eras, name), t);
    Recovery.ReplayHoldsWritten(cfg, ChangesOf(view, eras, name));
  }
}
