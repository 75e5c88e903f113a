/**
 What a crash leaves of the log of pkg/storage/wal/wal.go, from the writes down to the bytes and
 back: the last segment is cut at any byte, and the whole log is replayed.
 */
module WalCrash {
  import opened Bytes
  import opened Wal
  import opened Wrappers

  /** One call of Write, or one of WriteBatch with the markers it adds. */
  datatype Write = One(record: Record) | Many(begin: Record, items: seq<Record>, end: Record)

  predicate IsMarker(r: Record, kind: byte, n: nat) {
    r.kind == kind && r.data == EncodeBatchSize(n)
  }

  predicate IsItem(r: Record) {
    r.kind != BATCH_BEGIN && r.kind != BATCH_END
  }

  predicate WellFormed(w: Write) {
    match w
    case One(r) => IsItem(r)
    case Many(b, items, e) =>
      && IsMarker(b, BATCH_BEGIN, |items|) && IsMarker(e, BATCH_END, |items|) && |items| < U32
      && forall i :: 0 <= i < |items| ==> IsItem(items[i])
  }

  ghost predicate Proper(ws: seq<Write>) {
    forall i :: 0 <= i < |ws| ==> WellFormed(ws[i])
  }

  function RecordsOf(w: Write): seq<Record> {
    match w
    case One(r) => [r]
    case Many(b, items, e) => [b] + items + [e]
  }

  function AllRecords(ws: seq<Write>): seq<Record> {
    if ws == [] then [] else RecordsOf(ws[0]) + AllRecords(ws[1..])
  }

  function PieceOf(w: Write): Piece<Record> {
    match w
    case One(r) => Single(r)
    case Many(_, items, _) => Batch(items)
  }

  function Pieces(ws: seq<Write>): (ps: seq<Piece<Record>>)
    ensures |ps| == |ws| && forall i :: 0 <= i < |ws| ==> ps[i] == PieceOf(ws[i])
  {
    seq(|ws|, i requires 0 <= i < |ws| => PieceOf(ws[i]))
  }

  lemma EntriesConcat(a: seq<Record>, b: seq<Record>)
    ensures Entries(a + b) == Entries(a) + Entries(b)
  {
  }

  lemma EntriesOfWrite(w: Write)
    requires WellFormed(w)
    ensures Entries(RecordsOf(w)) == Render(PieceOf(w))
  {
    if w.Many? {
      BatchSizeBack(|w.items|);
      EntriesOfItems(w.items);
      EntriesConcat([w.begin], w.items);
      EntriesConcat([w.begin] + w.items, [w.end]);
      assert Entries([w.begin]) == [EntryOf(w.begin)] && Entries([w.end]) == [EntryOf(w.end)];
    }
  }

  lemma EntriesOfItems(rs: seq<Record>)
    requires forall i :: 0 <= i < |rs| ==> IsItem(rs[i])
    ensures Entries(rs) == Items(rs)
  {
  }

  lemma {:induction false} EntriesOfAll(ws: seq<Write>)
    requires Proper(ws)
    ensures Entries(AllRecords(ws)) == RenderAll(Pieces(ws))
  {
    if ws != [] {
      EntriesOfWrite(ws[0]);
      EntriesOfAll(ws[1..]);
      EntriesConcat(RecordsOf(ws[0]), AllRecords(ws[1..]));
      assert Pieces(ws)[1..] == Pieces(ws[1..]);
    }
  }

  /** Of a log cut between two records exactly the complete writes are delivered. */
  lemma RecordsCut(ws: seq<Write>, j: nat)
    requires Proper(ws) && j <= |AllRecords(ws)|
    ensures Entries(AllRecords(ws)[..j]) == RenderAll(Left(Pieces(ws), j))
    ensures DeliverRecords(AllRecords(ws)[..j]) == Survivors(Pieces(ws), j)
  {
    var ps, rs := Pieces(ws), AllRecords(ws);
    EntriesOfAll(ws);
    CrashLeavesPieces(ps, j);
    assert Entries(rs[..j]) == Entries(rs)[..j];
    ScanRecordsIsScan(Scan([], false, 0, []), rs[..j]);
    LeftIsClean(ps, j);
    ReplayExactly(Left(ps, j));
    LeftCompletes(ps, j);
  }

  // ---------- a cut at any byte ----------

  ghost predicate AllReadable(rs: seq<Record>) {
    forall i :: 0 <= i < |rs| ==> Readable(rs[i])
  }

  /** How many records are complete in the first `c` bytes of a segment. */
  function CompleteRecords(rs: seq<Record>, c: int): (j: nat)
    ensures j <= |rs|
  {
    if rs == [] || c < 8 + BodySize(rs[0]) then 0 else 1 + CompleteRecords(rs[1..], c - (8 + BodySize(rs[0])))
  }

  /** How many bytes of the next record follow them. */
  function Leftover(rs: seq<Record>, c: int): int {
    if rs == [] || c < 8 + BodySize(rs[0]) then c else Leftover(rs[1..], c - (8 + BodySize(rs[0])))
  }

  /** Between two records, or just after a length prefix. */
  predicate CleanCut(rs: seq<Record>, c: int) {
    Leftover(rs, c) == 0 || Leftover(rs, c) == 4
  }

  ghost predicate Inside(rs: seq<Record>, j: nat, off: int) {
    j <= |rs| && if j == |rs| then off == 0 else 0 <= off < 8 + BodySize(rs[j])
  }

  ghost function CutRecord(crc: Bytes -> u32, rs: seq<Record>, j: nat, off: int): Bytes
    requires AllReadable(rs) && Inside(rs, j, off)
  {
    if j == |rs| then [] else assert Readable(rs[j]); EncodeRecord(crc, rs[j]).value[..off]
  }

  lemma CutLater(crc: Bytes -> u32, rs: seq<Record>, c: nat, j: nat, x: Bytes)
    requires AllReadable(rs) && rs != [] && j < |rs| && 8 + BodySize(rs[0]) <= c <= |Segment(crc, rs)|
    requires Segment(crc, rs[1..])[..c - (8 + BodySize(rs[0]))] == Segment(crc, rs[1..][..j]) + x
    ensures Segment(crc, rs)[..c] == Segment(crc, rs[..j + 1]) + x
  {
    assert Readable(rs[0]);
    var e := EncodeRecord(crc, rs[0]).value;
    assert rs[..j + 1][1..] == rs[1..][..j];
    assert Segment(crc, rs)[..c] == e + Segment(crc, rs[1..])[..c - |e|];
    Associate(e, Segment(crc, rs[1..][..j]), x);
  }

  lemma CutFirst(crc: Bytes -> u32, rs: seq<Record>, c: nat)
    requires AllReadable(rs) && rs != [] && c < 8 + BodySize(rs[0])
    ensures Segment(crc, rs)[..c] == Segment(crc, rs[..0]) + CutRecord(crc, rs, 0, c)
  {
    assert Readable(rs[0]);
    var e := EncodeRecord(crc, rs[0]).value;
    assert rs[..0] == [];
    assert Segment(crc, rs)[..c] == [] + e[..c];
  }

  lemma {:induction false} FindCut(crc: Bytes -> u32, rs: seq<Record>, c: nat)
    requires AllReadable(rs) && c <= |Segment(crc, rs)|
    ensures Inside(rs, CompleteRecords(rs, c), Leftover(rs, c))
    ensures Segment(crc, rs)[..c]
         == Segment(crc, rs[..CompleteRecords(rs, c)]) + CutRecord(crc, rs, CompleteRecords(rs, c), Leftover(rs, c))
  {
    if rs == [] {
      assert rs[..0] == [];
    } else {
      assert Readable(rs[0]);
      var size := 8 + BodySize(rs[0]);
      if c < size {
        CutFirst(crc, rs, c);
      } else {
        FindCut(crc, rs[1..], c - size);
        var j, off := CompleteRecords(rs[1..], c - size), Leftover(rs[1..], c - size);
        CutLater(crc, rs, c, j, CutRecord(crc, rs[1..], j, off));
      }
    }
  }

  lemma SegmentCut(crc: Bytes -> u32, rs: seq<Record>, c: nat)
    requires AllReadable(rs) && c <= |Segment(crc, rs)|
    ensures ReplaySegment(crc, Segment(crc, rs)[..c])
         == if CleanCut(rs, c) then Some(rs[..CompleteRecords(rs, c)]) else None
  {
    FindCut(crc, rs, c);
    var j := CompleteRecords(rs, c);
    if j < |rs| {
      assert Readable(rs[j]);
      TornSegment(crc, rs[..j], rs[j], Leftover(rs, c));
    } else {
      SegmentThen(crc, rs[..j], []);
      assert rs[..j] + [] == rs[..j];
    }
  }

  // ---------- several segments ----------

  /** A segment as it was written, and the byte where it ends on disk. */
  datatype Cut = Cut(records: seq<Record>, at: nat)

  ghost predicate Possible(crc: Bytes -> u32, s: Cut) {
    AllReadable(s.records) && s.at <= |Segment(crc, s.records)|
  }

  ghost predicate AllPossible(crc: Bytes -> u32, ss: seq<Cut>) {
    ss == [] || (AllPossible(crc, ss[..|ss| - 1]) && Possible(crc, ss[|ss| - 1]))
  }

  ghost function OnDisk(crc: Bytes -> u32, ss: seq<Cut>): (bs: seq<Bytes>)
    requires AllPossible(crc, ss)
    ensures |bs| == |ss|
  {
    if ss == [] then []
    else
      var last := ss[|ss| - 1];
      OnDisk(crc, ss[..|ss| - 1]) + [Segment(crc, last.records)[..last.at]]
  }

  predicate EndsClean(s: Cut) {
    CleanCut(s.records, s.at)
  }

  predicate AllClean(ss: seq<Cut>) {
    ss == [] || (AllClean(ss[..|ss| - 1]) && EndsClean(ss[|ss| - 1]))
  }

  function KeptOf(s: Cut): seq<Record> {
    s.records[..CompleteRecords(s.records, s.at)]
  }

  /** The records that are complete on disk. */
  function Kept(ss: seq<Cut>): seq<Record> {
    if ss == [] then [] else Kept(ss[..|ss| - 1]) + KeptOf(ss[|ss| - 1])
  }

  lemma ReadOne(crc: Bytes -> u32, s: Cut)
    requires Possible(crc, s)
    ensures ReplaySegment(crc, Segment(crc, s.records)[..s.at]) == if EndsClean(s) then Some(KeptOf(s)) else None
  {
    SegmentCut(crc, s.records, s.at);
  }

  /** Any number of segments, each cut anywhere, read as their complete records, or fail where one does not end clean. */
  lemma {:induction false} SegmentsRead(crc: Bytes -> u32, ss: seq<Cut>)
    requires AllPossible(crc, ss)
    ensures ReplaySegments(crc, OnDisk(crc, ss)) == if AllClean(ss) then Some(Kept(ss)) else None
  {
    if ss != [] {
      var n := |ss| - 1;
      SegmentsRead(crc, ss[..n]);
      ReadOne(crc, ss[n]);
      assert OnDisk(crc, ss)[..n] == OnDisk(crc, ss[..n]);
    }
  }

  // ---------- several lives ----------

  /**
   The writes of one process, from the opening of the log to a crash, and the segments they went to.  A process
   always begins a new segment.
   */
  datatype Life = Life(writes: seq<Write>, segments: seq<Cut>)

  /** All records of the segments, complete on disk or not. */
  function Written(ss: seq<Cut>): seq<Record> {
    if ss == [] then [] else Written(ss[..|ss| - 1]) + ss[|ss| - 1].records
  }

  /** Segments that were rotated out are whole. */
  ghost predicate WholeSegments(crc: Bytes -> u32, ss: seq<Cut>) {
    ss == [] ||
    (&& WholeSegments(crc, ss[..|ss| - 1])
     && AllReadable(ss[|ss| - 1].records) && ss[|ss| - 1].at == |Segment(crc, ss[|ss| - 1].records)|)
  }

  ghost predicate Lived(crc: Bytes -> u32, l: Life) {
    && Proper(l.writes) && l.segments != [] && Possible(crc, l.segments[|l.segments| - 1])
    && WholeSegments(crc, l.segments[..|l.segments| - 1])
    && AllRecords(l.writes) == Written(l.segments)
  }

  lemma {:induction false} WholeIsComplete(crc: Bytes -> u32, rs: seq<Record>)
    requires AllReadable(rs)
    ensures CompleteRecords(rs, |Segment(crc, rs)|) == |rs| && Leftover(rs, |Segment(crc, rs)|) == 0
  {
    if rs != [] {
      assert Readable(rs[0]);
      WholeIsComplete(crc, rs[1..]);
    }
  }

  lemma {:induction false} WholeKeeps(crc: Bytes -> u32, ss: seq<Cut>)
    requires WholeSegments(crc, ss)
    ensures AllPossible(crc, ss) && AllClean(ss) && Kept(ss) == Written(ss)
  {
    if ss != [] {
      var last := ss[|ss| - 1];
      WholeKeeps(crc, ss[..|ss| - 1]);
      WholeIsComplete(crc, last.records);
      assert last.records[..|last.records|] == last.records;
    }
  }

  lemma PrefixOf(a: seq<Record>, b: seq<Record>, j: nat)
    requires j <= |b|
    ensures (a + b)[..|a| + j] == a + b[..j]
  {
  }

  /** Of the records of a process a beginning is complete on disk; only the last segment can end unclean. */
  lemma LifeKeeps(crc: Bytes -> u32, l: Life)
    requires Lived(crc, l)
    ensures AllPossible(crc, l.segments) && (AllClean(l.segments) <==> EndsClean(l.segments[|l.segments| - 1]))
    ensures |Kept(l.segments)| <= |AllRecords(l.writes)|
    ensures Kept(l.segments) == AllRecords(l.writes)[..|Kept(l.segments)|]
  {
    var n := |l.segments| - 1;
    var last := l.segments[n];
    WholeKeeps(crc, l.segments[..n]);
    PrefixOf(Written(l.segments[..n]), last.records, CompleteRecords(last.records, last.at));
  }

  ghost predicate AllLived(crc: Bytes -> u32, ls: seq<Life>) {
    ls == [] || (AllLived(crc, ls[..|ls| - 1]) && Lived(crc, ls[|ls| - 1]))
  }

  function AllSegments(ls: seq<Life>): seq<Cut> {
    if ls == [] then [] else AllSegments(ls[..|ls| - 1]) + ls[|ls| - 1].segments
  }

  /** What is left of the writes of one process. */
  function LeftBy(l: Life): seq<Piece<Record>> {
    Left(Pieces(l.writes), |Kept(l.segments)|)
  }

  function AllLeft(ls: seq<Life>): seq<Piece<Record>> {
    if ls == [] then [] else AllLeft(ls[..|ls| - 1]) + LeftBy(ls[|ls| - 1])
  }

  /** The records of the complete writes of one process. */
  function SurvivorsOf(l: Life): seq<Record> {
    Survivors(Pieces(l.writes), |Kept(l.segments)|)
  }

  function AllSurvivors(ls: seq<Life>): seq<Record> {
    if ls == [] then [] else AllSurvivors(ls[..|ls| - 1]) + SurvivorsOf(ls[|ls| - 1])
  }

  lemma {:induction false} PossibleConcat(crc: Bytes -> u32, a: seq<Cut>, b: seq<Cut>)
    requires AllPossible(crc, a) && AllPossible(crc, b)
    ensures AllPossible(crc, a + b)
  {
    if b == [] {
      assert a + b == a;
    } else {
      PossibleConcat(crc, a, b[..|b| - 1]);
      assert (a + b)[..|a + b| - 1] == a + b[..|b| - 1];
    }
  }

  lemma {:induction false} KeptConcat(a: seq<Cut>, b: seq<Cut>)
    ensures Kept(a + b) == Kept(a) + Kept(b)
  {
    if b == [] {
      assert a + b == a;
    } else {
      KeptConcat(a, b[..|b| - 1]);
      assert (a + b)[..|a + b| - 1] == a + b[..|b| - 1];
      Associate(Kept(a), Kept(b[..|b| - 1]), KeptOf(b[|b| - 1]));
    }
  }

  lemma RenderBoth(p: Piece<Record>, m: seq<Piece<Record>>, n: seq<Piece<Record>>) returns (x: seq<Entry<Record>>)
    ensures RenderAll([p] + m) == x + RenderAll(m) && RenderAll([p] + n) == x + RenderAll(n)
  {
    x := Render(p);
    RenderOne(p, m);
    RenderOne(p, n);
  }

  lemma RenderGrow(p: Piece<Record>, a: seq<Piece<Record>>, b: seq<Piece<Record>>)
    requires RenderAll(a + b) == RenderAll(a) + RenderAll(b)
    ensures RenderAll([p] + (a + b)) == RenderAll([p] + a) + RenderAll(b)
  {
    var x := RenderBoth(p, a + b, a);
    Associate(x, RenderAll(a), RenderAll(b));
  }

  lemma Rejoin<T>(a: seq<T>, b: seq<T>)
    requires a != []
    ensures [a[0]] + (a[1..] + b) == a + b && [a[0]] + a[1..] == a
  {
  }

  lemma NothingBefore<T>(b: seq<T>)
    ensures [] + b == b
  {
  }

  lemma {:induction false} RenderConcat(a: seq<Piece<Record>>, b: seq<Piece<Record>>)
    ensures RenderAll(a + b) == RenderAll(a) + RenderAll(b)
  {
    if a == [] {
      NothingBefore(b);
      NothingBefore(RenderAll(b));
    } else {
      RenderConcat(a[1..], b);
      RenderGrow(a[0], a[1..], b);
      Rejoin(a, b);
    }
  }

  lemma CompletedGrow(p: Piece<Record>, a: seq<Piece<Record>>, b: seq<Piece<Record>>)
    requires Completed(a + b) == Completed(a) + Completed(b)
    ensures Completed([p] + (a + b)) == Completed([p] + a) + Completed(b)
  {
    assert ([p] + (a + b))[1..] == a + b && ([p] + a)[1..] == a;
    Associate(CompletedOf(p), Completed(a), Completed(b));
  }

  lemma {:induction false} CompletedConcat(a: seq<Piece<Record>>, b: seq<Piece<Record>>)
    ensures Completed(a + b) == Completed(a) + Completed(b)
  {
    if a == [] {
      NothingBefore(b);
      NothingBefore(Completed(b));
    } else {
      CompletedConcat(a[1..], b);
      CompletedGrow(a[0], a[1..], b);
      Rejoin(a, b);
    }
  }

  lemma LifeEntries(crc: Bytes -> u32, l: Life)
    requires Lived(crc, l)
    ensures Entries(Kept(l.segments)) == RenderAll(LeftBy(l)) && Completed(LeftBy(l)) == SurvivorsOf(l)
  {
    LifeKeeps(crc, l);
    RecordsCut(l.writes, |Kept(l.segments)|);
    LeftCompletes(Pieces(l.writes), |Kept(l.segments)|);
  }

  lemma {:induction false} LivesEntries(crc: Bytes -> u32, ls: seq<Life>)
    requires AllLived(crc, ls)
    ensures AllPossible(crc, AllSegments(ls))
    ensures Entries(Kept(AllSegments(ls))) == RenderAll(AllLeft(ls))
    ensures Completed(AllLeft(ls)) == AllSurvivors(ls)
  {
    if ls != [] {
      var n := |ls| - 1;
      var before, l := ls[..n], ls[n];
      LivesEntries(crc, before);
      LifeKeeps(crc, l);
      LifeEntries(crc, l);
      PossibleConcat(crc, AllSegments(before), l.segments);
      KeptConcat(AllSegments(before), l.segments);
      EntriesConcat(Kept(AllSegments(before)), Kept(l.segments));
      RenderConcat(AllLeft(before), LeftBy(l));
      CompletedConcat(AllLeft(before), LeftBy(l));
    }
  }

  lemma Delivers(rs: seq<Record>, ps: seq<Piece<Record>>)
    requires Entries(rs) == RenderAll(ps)
    ensures DeliverRecords(rs) == Completed(ps) <==> Clean(ps)
  {
    ScanRecordsIsScan(Scan([], false, 0, []), rs);
    ReplayExactly(ps);
  }

  /**
   Any number of processes, each ended by a crash that cuts its last segment at any byte.  The replay gives
   exactly the records of the complete writes of all of them if and only if every cut falls between two records
   or just after a length prefix, and no process whose crash tore a batch is followed on disk by a single write.
   */
  lemma CrashesDeliverExactly(crc: Bytes -> u32, ls: seq<Life>)
    requires AllLived(crc, ls)
    ensures AllPossible(crc, AllSegments(ls))
    ensures Replayed(crc, OnDisk(crc, AllSegments(ls))) == Some(AllSurvivors(ls))
       <==> AllClean(AllSegments(ls)) && Clean(AllLeft(ls))
    ensures !AllClean(AllSegments(ls)) ==> Replayed(crc, OnDisk(crc, AllSegments(ls))) == None
  {
    LivesEntries(crc, ls);
    SegmentsRead(crc, AllSegments(ls));
    Delivers(Kept(AllSegments(ls)), AllLeft(ls));
  }

  /** After a single crash nothing can be lost: the complete writes are delivered, or the replay fails. */
  lemma CrashDelivers(crc: Bytes -> u32, l: Life)
    requires Lived(crc, l)
    ensures AllPossible(crc, l.segments)
    ensures Replayed(crc, OnDisk(crc, l.segments))
         == if EndsClean(l.segments[|l.segments| - 1]) then Some(SurvivorsOf(l)) else None
  {
    LifeKeeps(crc, l);
    SegmentsRead(crc, l.segments);
    RecordsCut(l.writes, |Kept(l.segments)|);
  }
}
