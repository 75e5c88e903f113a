/**
 The write-ahead log of pkg/storage/wal/wal.go: the record codec, what is read back from a segment
 whose tail was torn by a crash, and the batch markers.

 The log promises that a batch torn by a crash is skipped on replay.  Two results below say how far
 that goes: a segment cut inside a record makes the whole replay fail (unless the cut leaves just a
 length prefix), and a torn batch swallows every single record written after the restart until the
 next batch begins.
 */
module Wal {
  import opened Bytes
  import opened Wrappers

  const MAX_INT64 := 0x7fff_ffff_ffff_ffff

  /** A record; `timestamp` is an int64. */
  datatype Record = Record(kind: byte, seqNum: u64, timestamp: int, collection: Bytes, data: Bytes)

  function Body(r: Record): Bytes {
    [r.kind] + (LE(r.seqNum, 8) + (LE(if r.timestamp < 0 then 0 else r.timestamp, 8) +
    (LE(|r.collection|, 2) + (r.collection + (LE(|r.data|, 4) + r.data)))))
  }

  function BodySize(r: Record): nat {
    1 + 8 + 8 + 2 + |r.collection| + 4 + |r.data|
  }

  /** [length:4] body [crc:4]; an error when a length does not fit its field. */
  function EncodeRecord(crc: Bytes -> u32, r: Record): (e: Option<Bytes>)
    ensures e.Some? <==> |r.collection| < U16 && |r.data| < U32 && BodySize(r) < U32
    ensures e.Some? ==> |e.value| == 8 + BodySize(r)
  {
    if |r.collection| >= U16 || |r.data| >= U32 || BodySize(r) >= U32 then None
    else Some(LE(BodySize(r), 4) + (Body(r) + LE(crc(Body(r)), 4)))
  }

  datatype Decoded =
    | Ok(record: Record, rest: Bytes)
    | Eof          // io.EOF
    | Short        // io.ErrUnexpectedEOF
    | BadCrc
    | Panic        // an index out of range

  /** Reads the fields of a body; None where the code would index past its end. */
  function ParseBody(b: Bytes): Option<Record> {
    var kind := ReadFull(b, 1);
    if !kind.Got? then None else
    var seqNum := ReadUint(kind.rest, 8);
    if !seqNum.Got? || seqNum.value >= U64 then None else
    var timestamp := ReadUint(seqNum.rest, 8);
    if !timestamp.Got? then None else
    var nameLen := ReadUint(timestamp.rest, 2);
    if !nameLen.Got? then None else
    var name := ReadFull(nameLen.rest, nameLen.value);
    if !name.Got? then None else
    var dataLen := ReadUint(name.rest, 4);
    if !dataLen.Got? then None else
    var data := ReadFull(dataLen.rest, dataLen.value);
    if !data.Got? then None else
    var t := if timestamp.value > MAX_INT64 then MAX_INT64 else timestamp.value;
    Some(Record(kind.value[0], seqNum.value, t, name.value, data.value))
  }

  function CheckAndParse(crc: Bytes -> u32, body: Bytes, sum: nat, rest: Bytes): (d: Decoded)
    ensures d.Ok? ==> d.rest == rest
  {
    if sum != crc(body) then BadCrc else
    match ParseBody(body)
    case None => Panic
    case Some(r) => Ok(r, rest)
  }

  /** `length + 4` in 32 bits. */
  function BufferSize(length: nat): nat {
    if length + 4 < U32 then length + 4 else length + 4 - U32
  }

  /** The buffer size is computed in 32 bits: with a length close to the top the code indexes past its buffer. */
  function DecodeRecord(crc: Bytes -> u32, b: Bytes): (d: Decoded)
    ensures d.Ok? ==> |d.rest| < |b|
  {
    match ReadUint(b, 4)
    case Eof => Decoded.Eof
    case Short => Decoded.Short
    case Got(length, rest) =>
      match ReadFull(rest, BufferSize(length))
      case Eof => Decoded.Eof
      case Short => Decoded.Short
      case Got(buf, rest') =>
        if length + 4 >= U32 then Panic
        else CheckAndParse(crc, buf[..length], FromLE(buf[length..]), rest')
  }

  /** A record the decoder can give back: a real timestamp, and four bytes to spare in the length. */
  predicate Readable(r: Record) {
    && |r.collection| < U16
    && BodySize(r) + 4 < U32
    && 0 <= r.timestamp <= MAX_INT64
  }

  lemma ParseBodyBack(r: Record)
    requires |r.collection| < U16 && BodySize(r) < U32 && r.timestamp <= MAX_INT64
    ensures |Body(r)| == BodySize(r)
    ensures ParseBody(Body(r)) == Some(r.(timestamp := if r.timestamp < 0 then 0 else r.timestamp))
  {
    var t := if r.timestamp < 0 then 0 else r.timestamp;
    var d := LE(|r.data|, 4) + r.data;
    var c := r.collection + d;
    var n := LE(|r.collection|, 2) + c;
    var s := LE(t, 8) + n;
    var k := LE(r.seqNum, 8) + s;
    ReadBack([r.kind], k);
    ReadUintBack(r.seqNum, 8, s);
    ReadUintBack(t, 8, n);
    ReadUintBack(|r.collection|, 2, c);
    ReadBack(r.collection, d);
    ReadUintBack(|r.data|, 4, r.data);
    ReadBack(r.data, []);
    assert r.data + [] == r.data;
  }

  /** Reading a frame gives its body to the check, whatever the body is. */
  lemma DecodeFrame(crc: Bytes -> u32, body: Bytes, sum: u32, rest: Bytes)
    requires |body| < U32
    ensures DecodeRecord(crc, LE(|body|, 4) + (body + LE(sum, 4)) + rest) ==
            if |body| + 4 >= U32 then Panic else CheckAndParse(crc, body, sum, rest)
  {
    var tail := body + LE(sum, 4);
    assert LE(|body|, 4) + tail + rest == LE(|body|, 4) + (tail + rest);
    ReadUintBack(|body|, 4, tail + rest);
    ReadBack(tail, rest);
    assert tail[..|body|] == body && tail[|body|..] == LE(sum, 4);
    FromLEofLE(sum, 4);
  }

  /** Reading back a written record gives the record, exactly when it is readable. */
  lemma RecordRoundTrip(crc: Bytes -> u32, r: Record, rest: Bytes)
    requires EncodeRecord(crc, r).Some? && r.timestamp <= MAX_INT64
    ensures DecodeRecord(crc, EncodeRecord(crc, r).value + rest) == Ok(r, rest) <==> Readable(r)
  {
    ParseBodyBack(r);
    DecodeFrame(crc, Body(r), crc(Body(r)), rest);
  }

  /** Where the fields of a body stand, byte by byte. */
  predicate LaidOut(r: Record, b: Bytes) {
    var n := |r.collection|;
    && |b| == 23 + n + |r.data|
    && At(b, 0, [r.kind])
    && At(b, 1, LE(r.seqNum, 8))
    && At(b, 9, LE(if r.timestamp < 0 then 0 else r.timestamp, 8))
    && At(b, 17, LE(n, 2))
    && At(b, 19, r.collection)
    && At(b, 19 + n, LE(|r.data|, 4))
    && At(b, 23 + n, r.data)
  }

  lemma BodyLayout(r: Record, b: Bytes)
    requires b == Body(r)
    ensures LaidOut(r, b)
  {
    var d := LE(|r.data|, 4) + r.data;
    var c := r.collection + d;
    var n := LE(|r.collection|, 2) + c;
    var t := LE(if r.timestamp < 0 then 0 else r.timestamp, 8) + n;
    var s := LE(r.seqNum, 8) + t;
    Whole(b);
    TakeField(b, 0, [r.kind], s);
    TakeField(b, 1, LE(r.seqNum, 8), t);
    TakeField(b, 9, LE(if r.timestamp < 0 then 0 else r.timestamp, 8), n);
    TakeField(b, 17, LE(|r.collection|, 2), c);
    TakeField(b, 19, r.collection, d);
    TakeField(b, 19 + |r.collection|, LE(|r.data|, 4), r.data);
  }

  /** An encoded record is the length of its body, the body, laid out as it should be, and the checksum of the body. */
  lemma RecordLayout(crc: Bytes -> u32, r: Record, e: Bytes)
    requires EncodeRecord(crc, r) == Some(e)
    ensures |e| >= 8
    ensures var b := e[4..|e| - 4];
            At(e, 0, LE(|b|, 4)) && LaidOut(r, b) && At(e, |e| - 4, LE(crc(b), 4))
  {
    var b := Body(r);
    BodyLayout(r, b);
    var tail := LE(crc(b), 4);
    Whole(e);
    TakeField(e, 0, LE(|b|, 4), b + tail);
    TakeField(e, 4, b, tail);
    assert e[4..|e| - 4] == b;
  }

  /** A buffer that is not filled is an error before anything is checked. */
  lemma DecodeUnfilled(crc: Bytes -> u32, b: Bytes, length: nat, rest: Bytes)
    requires ReadUint(b, 4) == Got(length, rest) && |rest| < BufferSize(length)
    ensures DecodeRecord(crc, b) == if rest == [] then Decoded.Eof else Decoded.Short
  {
  }

  lemma FrameCut(crc: Bytes -> u32, body: Bytes, sum: u32, c: nat)
    requires |body| + 4 < U32 && c < 8 + |body|
    ensures DecodeRecord(crc, (LE(|body|, 4) + (body + LE(sum, 4)))[..c])
         == if c == 0 || c == 4 then Decoded.Eof else Decoded.Short
  {
    var tail := body + LE(sum, 4);
    ReadUintCut(|body|, 4, tail, c);
    if c >= 4 {
      DecodeUnfilled(crc, (LE(|body|, 4) + tail)[..c], |body|, tail[..c - 4]);
    }
  }

  /** Reading a written record of which the crash left `c` bytes. */
  lemma RecordCut(crc: Bytes -> u32, r: Record, c: nat)
    requires Readable(r) && c < 8 + BodySize(r)
    ensures EncodeRecord(crc, r).Some?
    ensures DecodeRecord(crc, EncodeRecord(crc, r).value[..c]) == if c == 0 || c == 4 then Decoded.Eof else Decoded.Short
  {
    ParseBodyBack(r);
    FrameCut(crc, Body(r), crc(Body(r)), c);
  }

  // ---------- segments ----------

  /** `rs`, then what the rest of the segment gives; None is an error of the replay. */
  function After(rs: seq<Record>, more: Option<seq<Record>>): Option<seq<Record>> {
    match more
    case None => None
    case Some(xs) => Some(rs + xs)
  }

  /** Decoding stops cleanly only at io.EOF. */
  function ReplaySegment(crc: Bytes -> u32, b: Bytes): Option<seq<Record>>
    decreases |b|
  {
    match DecodeRecord(crc, b)
    case Eof => Some([])
    case Ok(r, rest) => After([r], ReplaySegment(crc, rest))
    case _ => None
  }

  lemma AfterMore(a: seq<Record>, b: seq<Record>, more: Option<seq<Record>>)
    ensures After(a, After(b, more)) == After(a + b, more)
  {
    if more.Some? { assert a + (b + more.value) == a + b + more.value; }
  }

  lemma AfterNothing(more: Option<seq<Record>>)
    ensures After([], more) == more
  {
    if more.Some? { assert [] + more.value == more.value; }
  }

  /** The loop of replaySegment, collecting the records. */
  method ReadSegment(crc: Bytes -> u32, b: Bytes) returns (res: Option<seq<Record>>)
    ensures res == ReplaySegment(crc, b)
  {
    var left, records := b, [];
    AfterNothing(ReplaySegment(crc, b));
    while true
      invariant ReplaySegment(crc, b) == After(records, ReplaySegment(crc, left))
      decreases |left|
    {
      match DecodeRecord(crc, left)
      case Eof =>
        assert records + [] == records;
        return Some(records);
      case Ok(r, rest) =>
        AfterMore(records, [r], ReplaySegment(crc, rest));
        records, left := records + [r], rest;
      case _ =>
        return None;
    }
  }

  function Segment(crc: Bytes -> u32, rs: seq<Record>): Bytes
    requires forall i :: 0 <= i < |rs| ==> Readable(rs[i])
  {
    if rs == [] then [] else assert Readable(rs[0]); EncodeRecord(crc, rs[0]).value + Segment(crc, rs[1..])
  }

  lemma ReplayFirst(crc: Bytes -> u32, r: Record, more: Bytes)
    requires Readable(r)
    ensures EncodeRecord(crc, r).Some?
    ensures ReplaySegment(crc, EncodeRecord(crc, r).value + more) == After([r], ReplaySegment(crc, more))
  {
    RecordRoundTrip(crc, r, more);
  }

  lemma ReplayTorn(crc: Bytes -> u32, r: Record, c: nat)
    requires Readable(r) && c < 8 + BodySize(r)
    ensures EncodeRecord(crc, r).Some?
    ensures ReplaySegment(crc, EncodeRecord(crc, r).value[..c]) == if c == 0 || c == 4 then Some([]) else None
  {
    RecordCut(crc, r, c);
  }

  lemma SegmentHead(crc: Bytes -> u32, rs: seq<Record>, tail: Bytes) returns (e: Bytes, more: Bytes)
    requires rs != [] && forall i :: 0 <= i < |rs| ==> Readable(rs[i])
    ensures EncodeRecord(crc, rs[0]) == Some(e) && more == Segment(crc, rs[1..]) + tail
    ensures Segment(crc, rs) + tail == e + more
  {
    assert Readable(rs[0]);
    e, more := EncodeRecord(crc, rs[0]).value, Segment(crc, rs[1..]) + tail;
    Associate(e, Segment(crc, rs[1..]), tail);
  }

  lemma {:induction false} SegmentThen(crc: Bytes -> u32, rs: seq<Record>, tail: Bytes)
    requires forall i :: 0 <= i < |rs| ==> Readable(rs[i])
    ensures ReplaySegment(crc, Segment(crc, rs) + tail) == After(rs, ReplaySegment(crc, tail))
  {
    if rs == [] {
      assert Segment(crc, rs) + tail == tail;
      AfterNothing(ReplaySegment(crc, tail));
    } else {
      var e, more := SegmentHead(crc, rs, tail);
      assert ReplaySegment(crc, e + more) == After([rs[0]], ReplaySegment(crc, more)) by {
        ReplayFirst(crc, rs[0], more);
      }
      SegmentThen(crc, rs[1..], tail);
      AfterMore([rs[0]], rs[1..], ReplaySegment(crc, tail));
      assert [rs[0]] + rs[1..] == rs;
    }
  }

  /** A segment cut after `rs` and `c` bytes of the next record replays `rs` if c is 0 or 4, and is an error otherwise. */
  lemma TornSegment(crc: Bytes -> u32, rs: seq<Record>, next: Record, c: nat)
    requires forall i :: 0 <= i < |rs| ==> Readable(rs[i])
    requires Readable(next) && c < 8 + BodySize(next)
    ensures EncodeRecord(crc, next).Some?
    ensures ReplaySegment(crc, Segment(crc, rs) + EncodeRecord(crc, next).value[..c]) ==
            if c == 0 || c == 4 then Some(rs) else None
  {
    ReplayTorn(crc, next, c);
    SegmentThen(crc, rs, EncodeRecord(crc, next).value[..c]);
    assert rs + [] == rs;
  }

  /** A frame is refused for its checksum exactly when the checksum is not that of its body. */
  lemma BadCrcExactly(crc: Bytes -> u32, body: Bytes, sum: u32, rest: Bytes)
    requires |body| + 4 < U32
    ensures DecodeRecord(crc, LE(|body|, 4) + (body + LE(sum, 4)) + rest) == BadCrc <==> sum != crc(body)
  {
    DecodeFrame(crc, body, sum, rest);
  }

  /** A body that does not fit its checksum, anywhere in a segment, fails the replay: nothing altered is delivered. */
  lemma CorruptRecordFails(crc: Bytes -> u32, rs: seq<Record>, body: Bytes, sum: u32, rest: Bytes)
    requires forall i :: 0 <= i < |rs| ==> Readable(rs[i])
    requires |body| + 4 < U32 && sum != crc(body)
    ensures ReplaySegment(crc, Segment(crc, rs) + (LE(|body|, 4) + (body + LE(sum, 4)) + rest)) == None
  {
    BadCrcExactly(crc, body, sum, rest);
    SegmentThen(crc, rs, LE(|body|, 4) + (body + LE(sum, 4)) + rest);
  }

  // ---------- batch markers ----------

  /** A record as the replay loop sees it: a marker with its 32-bit size, or anything else. */
  datatype Entry<T> = Begin(size: nat) | End(size: nat) | Item(item: T)

  datatype Scan<T> = Scan(buffer: seq<T>, inBatch: bool, expected: nat, out: seq<T>)

  function ScanOne<T>(s: Scan<T>, e: Entry<T>): Scan<T> {
    match e
    case Begin(n) => Scan([], true, n, s.out)
    case End(_) =>
      Scan([], false, s.expected, if s.inBatch && |s.buffer| == s.expected then s.out + s.buffer else s.out)
    case Item(x) =>
      if s.inBatch then s.(buffer := s.buffer + [x]) else s.(out := s.out + [x])
  }

  function ScanAll<T>(s: Scan<T>, log: seq<Entry<T>>): Scan<T>
    decreases |log|
  {
    if log == [] then s else ScanAll(ScanOne(s, log[0]), log[1..])
  }

  /** The records that a replay of `log` hands to its callback. */
  function Deliver<T>(log: seq<Entry<T>>): seq<T> {
    ScanAll(Scan([], false, 0, []), log).out
  }

  const BATCH_BEGIN: byte := 6
  const BATCH_END: byte := 7

  function EncodeBatchSize(n: nat): Bytes { LE(n % U32, 4) }

  function DecodeBatchSize(data: Bytes): nat { if |data| < 4 then 0 else FromLE(data[..4]) }

  lemma BatchSizeBack(n: nat)
    ensures DecodeBatchSize(EncodeBatchSize(n)) == n % U32
  {
    FromLEofLE(n % U32, 4);
    assert EncodeBatchSize(n)[..4] == EncodeBatchSize(n);
  }

  function EntryOf(r: Record): Entry<Record> {
    if r.kind == BATCH_BEGIN then Begin(DecodeBatchSize(r.data))
    else if r.kind == BATCH_END then End(DecodeBatchSize(r.data))
    else Item(r)
  }

  function ScanRecords(s: Scan<Record>, log: seq<Record>): Scan<Record>
    decreases |log|
  {
    if log == [] then s else ScanRecords(ScanOne(s, EntryOf(log[0])), log[1..])
  }

  /** The records that a replay hands to its callback. */
  function DeliverRecords(log: seq<Record>): seq<Record> {
    ScanRecords(Scan([], false, 0, []), log).out
  }

  function Entries(log: seq<Record>): (es: seq<Entry<Record>>)
    ensures |es| == |log|
  {
    seq(|log|, i requires 0 <= i < |log| => EntryOf(log[i]))
  }

  lemma {:induction false} ScanRecordsIsScan(s: Scan<Record>, log: seq<Record>)
    ensures ScanRecords(s, log) == ScanAll(s, Entries(log))
    decreases |log|
  {
    if log != [] {
      ScanRecordsIsScan(ScanOne(s, EntryOf(log[0])), log[1..]);
      assert Entries(log)[1..] == Entries(log[1..]);
    }
  }

  /** The records of all segments in order, or an error where one of them has one. */
  function ReplaySegments(crc: Bytes -> u32, segments: seq<Bytes>): Option<seq<Record>> {
    if segments == [] then Some([])
    else
      match ReplaySegments(crc, segments[..|segments| - 1])
      case None => None
      case Some(rs) => After(rs, ReplaySegment(crc, segments[|segments| - 1]))
  }

  lemma {:induction false} SegmentsStayFailed(crc: Bytes -> u32, segments: seq<Bytes>, i: nat)
    requires i <= |segments| && ReplaySegments(crc, segments[..i]) == None
    ensures ReplaySegments(crc, segments) == None
  {
    if i == |segments| {
      assert segments[..i] == segments;
    } else {
      var init := segments[..|segments| - 1];
      assert init[..i] == segments[..i];
      SegmentsStayFailed(crc, init, i);
    }
  }

  /** What a replay of the segments hands to its callback, or an error. */
  function Replayed(crc: Bytes -> u32, segments: seq<Bytes>): Option<seq<Record>> {
    match ReplaySegments(crc, segments)
    case None => None
    case Some(rs) => Some(DeliverRecords(rs))
  }

  /** Replay: nothing is applied before every segment has been read. */
  method Replay(crc: Bytes -> u32, segments: seq<Bytes>) returns (out: Option<seq<Record>>)
    ensures out == Replayed(crc, segments)
  {
    var all: seq<Record> := [];
    for i := 0 to |segments|
      invariant ReplaySegments(crc, segments[..i]) == Some(all)
    {
      assert segments[..i + 1][..i] == segments[..i];
      var records := ReadSegment(crc, segments[i]);
      if records.None? {
        SegmentsStayFailed(crc, segments, i + 1);
        return None;
      }
      all := all + records.value;
    }
    assert segments[..|segments|] == segments;
    var delivered := Apply(all);
    return Some(delivered);
  }

  /** The loop that applies the records with batch atomicity. */
  method Apply(log: seq<Record>) returns (out: seq<Record>)
    ensures out == DeliverRecords(log)
  {
    out := [];
    var buffer: seq<Record>, inBatch, expected: nat := [], false, 0;
    for i := 0 to |log|
      invariant ScanRecords(Scan(buffer, inBatch, expected, out), log[i..]).out == DeliverRecords(log)
    {
      assert log[i..][1..] == log[i + 1..];
      var record := log[i];
      if record.kind == BATCH_BEGIN {
        inBatch, expected, buffer := true, DecodeBatchSize(record.data), [];
      } else if record.kind == BATCH_END {
        if inBatch && |buffer| == expected {
          out := out + buffer;
        }
        inBatch, buffer := false, [];
      } else if inBatch {
        buffer := buffer + [record];
      } else {
        out := out + [record];
      }
    }
    assert log[|log|..] == [];
  }

  lemma {:induction false} ScanConcat<T>(s: Scan<T>, a: seq<Entry<T>>, b: seq<Entry<T>>)
    ensures ScanAll(s, a + b) == ScanAll(ScanAll(s, a), b)
    decreases |a|
  {
    if a == [] {
      assert a + b == b;
    } else {
      assert (a + b)[1..] == a[1..] + b;
      ScanConcat(ScanOne(s, a[0]), a[1..], b);
    }
  }

  /** What writers leave in the log: a single record, a whole batch, or a batch of `size` cut short by a crash. */
  datatype Piece<T> = Single(item: T) | Batch(items: seq<T>) | Torn(size: nat, items: seq<T>)

  function Items<T>(xs: seq<T>): (r: seq<Entry<T>>)
    ensures |r| == |xs|
  {
    seq(|xs|, i requires 0 <= i < |xs| => Item(xs[i]))
  }

  function Render<T>(p: Piece<T>): seq<Entry<T>> {
    match p
    case Single(x) => [Item(x)]
    case Batch(xs) => [Begin(|xs| % U32)] + Items(xs) + [End(|xs| % U32)]
    case Torn(n, xs) => [Begin(n % U32)] + Items(xs)
  }

  function RenderAll<T>(ps: seq<Piece<T>>): seq<Entry<T>> {
    if ps == [] then [] else Render(ps[0]) + RenderAll(ps[1..])
  }

  /** The records of the writes that were completed. */
  function Completed<T>(ps: seq<Piece<T>>): seq<T> {
    if ps == [] then [] else CompletedOf(ps[0]) + Completed(ps[1..])
  }

  function CompletedOf<T>(p: Piece<T>): seq<T> {
    match p
    case Single(x) => [x]
    case Batch(xs) => xs
    case Torn(_, _) => []
  }

  /** Whether a torn batch is open after `p`, and what `p` delivers. */
  function OpenAfter<T>(open: bool, p: Piece<T>): bool {
    if p.Single? then open else p.Torn?
  }

  function DeliveredOf<T>(open: bool, p: Piece<T>): seq<T> {
    match p
    case Single(x) => if open then [] else [x]
    case Batch(xs) => if |xs| < U32 then xs else []
    case Torn(_, _) => []
  }

  /** The same, as far as a replay delivers it; `open` says that a torn batch is still open. */
  function Delivered<T>(open: bool, ps: seq<Piece<T>>): seq<T>
    decreases |ps|
  {
    if ps == [] then [] else DeliveredOf(open, ps[0]) + Delivered(OpenAfter(open, ps[0]), ps[1..])
  }

  /** No single record comes right after a torn batch, and every batch size fits 32 bits. */
  predicate Clean<T>(ps: seq<Piece<T>>) {
    ps == [] ||
    (&& (ps[0].Batch? ==> |ps[0].items| < U32)
     && !(ps[0].Torn? && |ps| > 1 && ps[1].Single?)
     && Clean(ps[1..]))
  }

  lemma {:induction false} ScanItems<T>(s: Scan<T>, xs: seq<T>)
    requires s.inBatch
    ensures ScanAll(s, Items(xs)) == s.(buffer := s.buffer + xs)
    decreases |xs|
  {
    if xs == [] {
      assert s.buffer + xs == s.buffer;
    } else {
      assert Items(xs)[1..] == Items(xs[1..]);
      ScanItems(ScanOne(s, Item(xs[0])), xs[1..]);
      assert s.buffer + [xs[0]] + xs[1..] == s.buffer + xs;
    }
  }

  lemma ScanBatch<T>(s: Scan<T>, n: nat, xs: seq<T>)
    ensures ScanAll(s, [Begin(n)] + Items(xs)) == Scan(xs, true, n, s.out)
    ensures ScanAll(s, [Begin(n)] + Items(xs) + [End(n)]) ==
            Scan([], false, n, if |xs| == n then s.out + xs else s.out)
  {
    var begin, items, end := [Entry<T>.Begin(n)], Items(xs), [Entry<T>.End(n)];
    var started := ScanOne(s, Begin(n));
    assert ScanAll(s, begin) == ScanAll(started, begin[1..]) == started;
    ScanConcat(s, begin, items);
    ScanItems(started, xs);
    assert [] + xs == xs;
    var filled := Scan(xs, true, n, s.out);
    ScanConcat(s, begin + items, end);
    assert ScanAll(filled, end) == ScanAll(ScanOne(filled, End(n)), end[1..]);
  }

  lemma ScanPiece<T>(s: Scan<T>, p: Piece<T>)
    ensures var next := ScanAll(s, Render(p));
            next.inBatch == OpenAfter(s.inBatch, p) && next.out == s.out + DeliveredOf(s.inBatch, p)
  {
    assert s.out + [] == s.out;
    match p
    case Single(x) =>
      assert ScanAll(s, Render(p)) == ScanAll(ScanOne(s, Item(x)), [Entry.Item(x)][1..]);
    case Batch(xs) => ScanBatch(s, |xs| % U32, xs);
    case Torn(n, xs) => ScanBatch(s, n % U32, xs);
  }

  lemma {:induction false} DeliveredIsScanned<T>(s: Scan<T>, ps: seq<Piece<T>>)
    ensures ScanAll(s, RenderAll(ps)).out == s.out + Delivered(s.inBatch, ps)
    decreases |ps|
  {
    if ps == [] {
      assert s.out + [] == s.out;
    } else {
      var p, rest := ps[0], ps[1..];
      ScanPiece(s, p);
      ScanConcat(s, Render(p), RenderAll(rest));
      DeliveredIsScanned(ScanAll(s, Render(p)), rest);
      Associate(s.out, DeliveredOf(s.inBatch, p), Delivered(OpenAfter(s.inBatch, p), rest));
    }
  }

  lemma {:induction false} DeliveredExactly<T>(open: bool, ps: seq<Piece<T>>)
    ensures |Delivered(open, ps)| <= |Completed(ps)|
    ensures Delivered(open, ps) == Completed(ps) <==> Clean(ps) && !(open && ps != [] && ps[0].Single?)
    decreases |ps|
  {
    if ps != [] {
      var rest, open' := ps[1..], OpenAfter(open, ps[0]);
      DeliveredExactly(open', rest);
      var got, all := DeliveredOf(open, ps[0]), CompletedOf(ps[0]);
      assert (got + Delivered(open', rest))[|got|..] == Delivered(open', rest);
      assert (all + Completed(rest))[|all|..] == Completed(rest);
    }
  }

  /** A replay delivers exactly the completed writes if and only if no single record follows a torn batch. */
  lemma ReplayExactly<T>(ps: seq<Piece<T>>)
    ensures Deliver(RenderAll(ps)) == Completed(ps) <==> Clean(ps)
  {
    DeliveredIsScanned(Scan([], false, 0, []), ps);
    assert [] + Delivered(false, ps) == Delivered(false, ps);
    DeliveredExactly(false, ps);
  }

  /** A write that was acknowledged after a crash in a batch is not delivered by the next recovery. */
  lemma SingleAfterTornBatchIsLost<T>(a: T, b: T)
    ensures Deliver(RenderAll([Torn(2, [a]), Single(b)])) == []
    ensures Completed([Torn(2, [a]), Single(b)]) == [b]
  {
    var ps := [Torn(2, [a]), Single(b)];
    DeliveredIsScanned(Scan([], false, 0, []), ps);
    assert ps[1..] == [Single(b)] && ps[1..][1..] == [];
    assert Delivered(true, ps[1..]) == [] + Delivered(true, ps[1..][1..]);
    assert Completed(ps[1..]) == [b] + Completed(ps[1..][1..]);
  }

  /** What remains of the writes when the log is cut after `c` entries: whole ones, then at most a batch's beginning. */
  function Left<T>(ps: seq<Piece<T>>, c: nat): seq<Piece<T>>
    decreases |ps|
  {
    if ps == [] || c == 0 then []
    else if c >= |Render(ps[0])| then [ps[0]] + Left(ps[1..], c - |Render(ps[0])|)
    else
      match ps[0]
      case Single(_) => []
      case Batch(xs) => [Torn(|xs|, xs[..c - 1])]
      case Torn(n, xs) => [Torn(n, xs[..c - 1])]
  }

  /** The records of the writes that are complete in the first `c` entries. */
  function Survivors<T>(ps: seq<Piece<T>>, c: nat): seq<T>
    decreases |ps|
  {
    if ps == [] || c < |Render(ps[0])| then []
    else CompletedOf(ps[0]) + Survivors(ps[1..], c - |Render(ps[0])|)
  }

  lemma BatchCut<T>(p: Piece<T>, c: nat)
    requires !p.Single? && 0 < c < |Render(p)|
    ensures Render(p)[..c] == Render(Left([p], c)[0])
  {
    var xs := p.items;
    assert Items(xs)[..c - 1] == Items(xs[..c - 1]);
  }

  lemma RenderOne<T>(p: Piece<T>, ps: seq<Piece<T>>)
    ensures RenderAll([p] + ps) == Render(p) + RenderAll(ps)
  {
    assert ([p] + ps)[1..] == ps;
  }

  /** Cutting a log between two entries leaves exactly the entries of what is left. */
  lemma {:induction false} CrashLeavesPieces<T>(ps: seq<Piece<T>>, c: nat)
    requires c <= |RenderAll(ps)|
    ensures RenderAll(Left(ps, c)) == RenderAll(ps)[..c]
    decreases |ps|
  {
    if ps != [] && c > 0 {
      var first, rest := Render(ps[0]), ps[1..];
      if c >= |first| {
        CrashLeavesPieces(rest, c - |first|);
        RenderOne(ps[0], Left(rest, c - |first|));
        assert RenderAll(ps)[..c] == first + RenderAll(rest)[..c - |first|];
      } else {
        BatchCut(ps[0], c);
        var torn := Left([ps[0]], c)[0];
        RenderOne(torn, []);
        assert [torn] + [] == [torn] && Left(ps, c) == [torn];
        assert RenderAll(ps)[..c] == first[..c];
      }
    }
  }

  lemma {:induction false} LeftCompletes<T>(ps: seq<Piece<T>>, c: nat)
    ensures Completed(Left(ps, c)) == Survivors(ps, c)
    decreases |ps|
  {
    if ps != [] && c > 0 {
      if c >= |Render(ps[0])| {
        LeftCompletes(ps[1..], c - |Render(ps[0])|);
        assert Left(ps, c)[1..] == Left(ps[1..], c - |Render(ps[0])|);
      } else if !ps[0].Single? {
        assert Left(ps, c)[1..] == [];
      }
    }
  }

  /** One crash never loses a single record: a torn batch can only be the last of what is left. */
  lemma {:induction false} LeftIsClean<T>(ps: seq<Piece<T>>, c: nat)
    requires forall i :: 0 <= i < |ps| ==> !ps[i].Torn? && (ps[i].Batch? ==> |ps[i].items| < U32)
    ensures Clean(Left(ps, c))
    decreases |ps|
  {
    if ps != [] && c > 0 {
      if c >= |Render(ps[0])| {
        LeftIsClean(ps[1..], c - |Render(ps[0])|);
        assert Left(ps, c)[1..] == Left(ps[1..], c - |Render(ps[0])|);
      } else if !ps[0].Single? {
        assert Left(ps, c)[1..] == [];
      }
    }
  }
}
