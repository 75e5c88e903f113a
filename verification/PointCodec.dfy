/**
 The binary format of a point: Point.Encode and Point.Decode of pkg/point/point.go.

 A float is its 32-bit word and a string is its bytes.  The JSON codec of the payload is a
 parameter.  The named vectors are a Go map, written in whatever order the map is walked.
 */
module PointCodec {
  import opened Bytes
  import opened Wrappers

  type Words = seq<u32>

  datatype Sparse = Sparse(indices: Words, values: Words)

  datatype Point<P> = Point(
    id: Bytes, vector: Words, payload: P, named: map<Bytes, Words>, sparse: Option<Sparse>,
    multi: map<Bytes, seq<Words>>, version: u64)

  /** json.Marshal and json.Unmarshal on payloads, and the nil payload. */
  datatype Json<!P> = Json(marshal: P -> Option<Bytes>, unmarshal: Bytes -> Option<P>, nil: P)

  // ---------- encoding ----------

  function EncodeWords(ws: Words): (b: Bytes)
    ensures |b| == 4 * |ws|
  {
    if ws == [] then [] else EncodeWords(ws[..|ws| - 1]) + LE(ws[|ws| - 1], 4)
  }

  function EncodeNamed(name: Bytes, ws: Words): Bytes {
    LE(|name|, 2) + (name + (LE(|ws|, 4) + EncodeWords(ws)))
  }

  function EncodeNames(named: map<Bytes, Words>, order: seq<Bytes>): Bytes
    requires forall name :: name in order ==> name in named
  {
    if order == [] then []
    else EncodeNames(named, order[..|order| - 1]) + EncodeNamed(order[|order| - 1], named[order[|order| - 1]])
  }

  function EncodeSparse(s: Sparse): Bytes {
    LE(|s.indices|, 4) + (EncodeWords(s.indices) + EncodeWords(s.values))
  }

  /** A walk over a map: every key once. */
  ghost predicate IsWalk(order: seq<Bytes>, named: map<Bytes, Words>) {
    && (forall name :: name in order <==> name in named)
    && (forall i, j :: 0 <= i < j < |order| ==> order[i] != order[j])
    && |order| == |named|
  }

  /** ID, vector and payload. */
  function Head<P>(p: Point<P>, payload: Bytes): Bytes {
    LE(|p.id|, 2) + (p.id + (LE(|p.vector|, 4) + (EncodeWords(p.vector) + (LE(|payload|, 4) + payload))))
  }

  function NamedPart<P>(p: Point<P>, order: seq<Bytes>): Bytes
    requires forall name :: name in order ==> name in p.named
  {
    LE(|p.named|, 2) + EncodeNames(p.named, order)
  }

  function SparsePart<P>(p: Point<P>): Bytes {
    if p.sparse.None? then [0] else [1] + EncodeSparse(p.sparse.value)
  }

  predicate NameFits(named: map<Bytes, Words>, name: Bytes) {
    name in named && |name| < U16 && |named[name]| < U32
  }

  ghost predicate NamesFit(named: map<Bytes, Words>) {
    forall name :: name in named ==> NameFits(named, name)
  }

  /** Every length fits its field. */
  ghost predicate Fits<P>(json: Json<P>, p: Point<P>) {
    && |p.id| < U16
    && |p.vector| < U32
    && json.marshal(p.payload).Some?
    && |json.marshal(p.payload).value| < U32
    && |p.named| < U16
    && NamesFit(p.named)
    && (p.sparse.Some? ==> |p.sparse.value.indices| < U32)
  }

  /** What Encode writes; an error when a length does not fit. */
  ghost function Encode<P>(json: Json<P>, p: Point<P>, order: seq<Bytes>): Option<Bytes>
    requires IsWalk(order, p.named)
  {
    if !Fits(json, p) then None
    else
      var head := Head(p, json.marshal(p.payload).value);
      Some(head + (NamedPart(p, order) + (LE(p.version, 8) + SparsePart(p))))
  }

  method WriteWords(buf: Bytes, ws: Words) returns (out: Bytes)
    ensures out == buf + EncodeWords(ws)
  {
    out := buf;
    assert EncodeWords(ws[..0]) == [];
    for i := 0 to |ws|
      invariant out == buf + EncodeWords(ws[..i])
    {
      assert ws[..i + 1][..i] == ws[..i];
      out := out + LE(ws[i], 4);
    }
    assert ws[..|ws|] == ws;
  }

  method WriteNamed(buf: Bytes, name: Bytes, ws: Words) returns (out: Bytes)
    ensures out == buf + EncodeNamed(name, ws)
  {
    out := WriteWords(buf + LE(|name|, 2) + name + LE(|ws|, 4), ws);
    assert out == buf + EncodeNamed(name, ws);
  }

  lemma NamesNext(buf: Bytes, named: map<Bytes, Words>, order: seq<Bytes>, i: nat)
    requires i < |order| && forall name :: name in order ==> name in named
    ensures buf + EncodeNames(named, order[..i + 1])
         == (buf + EncodeNames(named, order[..i])) + EncodeNamed(order[i], named[order[i]])
  {
    assert order[..i + 1][..i] == order[..i];
    Associate(buf, EncodeNames(named, order[..i]), EncodeNamed(order[i], named[order[i]]));
  }

  /** The loop over the named vectors; fails at the first name or vector that is too long. */
  method WriteNames(buf: Bytes, named: map<Bytes, Words>, order: seq<Bytes>) returns (r: Option<Bytes>)
    requires IsWalk(order, named)
    ensures r.Some? <==> NamesFit(named)
    ensures r.Some? ==> r.value == buf + EncodeNames(named, order)
  {
    var out := buf;
    assert EncodeNames(named, order[..0]) == [];
    for i := 0 to |order|
      invariant out == buf + EncodeNames(named, order[..i])
      invariant forall j :: 0 <= j < i ==> NameFits(named, order[j])
    {
      var name := order[i];
      assert name in named;
      if |name| >= U16 || |named[name]| >= U32 {
        assert !NameFits(named, name);
        return None;
      }
      NamesNext(buf, named, order, i);
      out := WriteNamed(out, name, named[name]);
    }
    assert order[..|order|] == order;
    return Some(out);
  }

  lemma Regroup(a: Bytes, b: Bytes, c: Bytes, d: Bytes, e: Bytes)
    ensures a + b + c + d + e == a + ((b + c) + (d + e))
  {
  }

  method WriteHead<P>(p: Point<P>, payload: Bytes) returns (out: Bytes)
    ensures out == Head(p, payload)
  {
    out := WriteWords(LE(|p.id|, 2) + p.id + LE(|p.vector|, 4), p.vector);
    out := out + LE(|payload|, 4) + payload;
    assert out == Head(p, payload);
  }

  method WriteSparse<P>(buf: Bytes, p: Point<P>) returns (out: Bytes)
    ensures out == buf + SparsePart(p)
  {
    if p.sparse.None? {
      out := buf + [0];
    } else {
      var s := p.sparse.value;
      out := WriteWords(buf + [1] + LE(|s.indices|, 4), s.indices);
      out := WriteWords(out, s.values);
      assert out == buf + SparsePart(p);
    }
  }

  method EncodePoint<P>(json: Json<P>, p: Point<P>, order: seq<Bytes>) returns (r: Option<Bytes>)
    requires IsWalk(order, p.named)
    ensures r == Encode(json, p, order)
  {
    if |p.id| >= U16 || |p.vector| >= U32 { return None; }
    var payload := json.marshal(p.payload);
    if payload.None? || |payload.value| >= U32 || |p.named| >= U16 { return None; }
    var head := WriteHead(p, payload.value);
    var named := WriteNames(head + LE(|p.named|, 2), p.named, order);
    if named.None? { return None; }
    if p.sparse.Some? && |p.sparse.value.indices| >= U32 { return None; }
    var buf := WriteSparse(named.value + LE(p.version, 8), p);
    Regroup(head, LE(|p.named|, 2), EncodeNames(p.named, order), LE(p.version, 8), SparsePart(p));
    return Some(buf);
  }

  // ---------- decoding ----------

  /** A parser's result; `Failed` is any error. */
  datatype Parsed<T> = Done(value: T, rest: Bytes) | Failed

  function ReadWords(b: Bytes, n: nat): Parsed<Words> {
    if n == 0 then Done([], b)
    else
      match ReadWords(b, n - 1)
      case Failed => Failed
      case Done(ws, rest) =>
        match ReadUint(rest, 4)
        case Got(w, rest') => if w < U32 then Done(ws + [w], rest') else Failed
        case _ => Failed
  }

  /** A length in `k` bytes and that many bytes. */
  function ReadString(b: Bytes, k: nat): Parsed<Bytes> {
    match ReadUint(b, k)
    case Got(n, rest) =>
      (match ReadFull(rest, n)
       case Got(s, rest') => Done(s, rest')
       case _ => Failed)
    case _ => Failed
  }

  /** A length in four bytes and that many words. */
  function ReadVector(b: Bytes): Parsed<Words> {
    match ReadUint(b, 4)
    case Got(n, rest) => ReadWords(rest, n)
    case _ => Failed
  }

  function ReadNamed(b: Bytes): Parsed<(Bytes, Words)> {
    match ReadString(b, 2)
    case Failed => Failed
    case Done(name, rest) =>
      match ReadVector(rest)
      case Failed => Failed
      case Done(ws, rest') => Done((name, ws), rest')
  }

  function ReadNames(b: Bytes, n: nat): Parsed<map<Bytes, Words>> {
    if n == 0 then Done(map[], b)
    else
      match ReadNames(b, n - 1)
      case Failed => Failed
      case Done(m, rest) => AddNamed(m, ReadNamed(rest))
  }

  function AddNamed(m: map<Bytes, Words>, e: Parsed<(Bytes, Words)>): Parsed<map<Bytes, Words>> {
    match e
    case Failed => Failed
    case Done(v, rest) => Done(m[v.0 := v.1], rest)
  }

  function ReadSparse(b: Bytes): Parsed<Sparse> {
    match ReadUint(b, 4)
    case Got(n, rest) =>
      (match ReadWords(rest, n)
       case Failed => Failed
       case Done(indices, rest') =>
         match ReadWords(rest', n)
         case Failed => Failed
         case Done(values, rest'') => Done(Sparse(indices, values), rest''))
    case _ => Failed
  }

  datatype HeadFields = HeadFields(id: Bytes, vector: Words, payload: Bytes)

  function ReadHead(b: Bytes): Parsed<HeadFields> {
    match ReadString(b, 2)
    case Failed => Failed
    case Done(id, rest) =>
      match ReadVector(rest)
      case Failed => Failed
      case Done(vector, rest') =>
        match ReadString(rest', 4)
        case Failed => Failed
        case Done(payload, rest'') => Done(HeadFields(id, vector, payload), rest'')
  }

  /** The payload bytes read back; no bytes leave the payload nil. */
  function Unmarshal<P>(json: Json<P>, b: Bytes): Option<P> {
    if b == [] then Some(json.nil) else json.unmarshal(b)
  }

  /** The tail of Decode, after the named vectors. */
  function DecodeTail<P>(p: Point<P>, b: Bytes): Option<Point<P>> {
    match ReadUint(b, 8)
    case Eof => Some(p.(version := 1))
    case Short => None
    case Got(v, rest) =>
      if v >= U64 then None else
      match ReadFull(rest, 1)
      case Eof => Some(p.(version := v))
      case Short => None
      case Got(flag, rest') =>
        if flag[0] == 0 then Some(p.(version := v))
        else
          match ReadSparse(rest')
          case Failed => None
          case Done(s, _) => Some(p.(version := v, sparse := Some(s)))
  }

  /** The part of Decode after the payload. */
  function DecodeRest<P>(p: Point<P>, b: Bytes): Option<Point<P>> {
    match ReadUint(b, 2)
    case Eof => Some(p.(version := 1))
    case Short => None
    case Got(n, rest) => DecodeNames(p, n, rest)
  }

  /** The part of Decode after the number of named vectors. */
  function DecodeNames<P>(p: Point<P>, n: nat, b: Bytes): Option<Point<P>> {
    match ReadNames(b, n)
    case Failed => None
    case Done(named, rest) => DecodeTail(p.(named := named), rest)
  }

  /** Decode into a fresh point; None is any error. */
  function Decode<P>(json: Json<P>, b: Bytes): Option<Point<P>> {
    match ReadHead(b)
    case Failed => None
    case Done(h, rest) =>
      match Unmarshal(json, h.payload)
      case None => None
      case Some(payload) => DecodeRest(Point(h.id, h.vector, payload, map[], None, map[], 0), rest)
  }

  method ReadWordsLoop(b: Bytes, n: nat) returns (r: Parsed<Words>)
    ensures r == ReadWords(b, n)
  {
    var ws: Words, rest := [], b;
    for i := 0 to n
      invariant ReadWords(b, i) == Done(ws, rest)
    {
      var w := ReadUint(rest, 4);
      if !w.Got? || w.value >= U32 {
        WordsStayFailed(b, i + 1, n);
        return Failed;
      }
      ws, rest := ws + [w.value], w.rest;
    }
    return Done(ws, rest);
  }

  lemma {:induction false} WordsStayFailed(b: Bytes, i: nat, n: nat)
    requires i <= n && ReadWords(b, i).Failed?
    ensures ReadWords(b, n).Failed?
  {
    if i < n { WordsStayFailed(b, i, n - 1); }
  }

  method ReadNamedLoop(b: Bytes) returns (r: Parsed<(Bytes, Words)>)
    ensures r == ReadNamed(b)
  {
    var name := ReadString(b, 2);
    if name.Failed? { return Failed; }
    var count := ReadUint(name.rest, 4);
    if !count.Got? { return Failed; }
    var ws := ReadWordsLoop(count.rest, count.value);
    if ws.Failed? { return Failed; }
    return Done((name.value, ws.value), ws.rest);
  }

  method ReadNamesLoop(b: Bytes, n: nat) returns (r: Parsed<map<Bytes, Words>>)
    ensures r == ReadNames(b, n)
  {
    var named: map<Bytes, Words>, rest := map[], b;
    for i := 0 to n
      invariant ReadNames(b, i) == Done(named, rest)
    {
      var e := ReadNamedLoop(rest);
      if e.Failed? {
        NamesStayFailed(b, i + 1, n);
        return Failed;
      }
      named, rest := named[e.value.0 := e.value.1], e.rest;
    }
    return Done(named, rest);
  }

  lemma {:induction false} NamesStayFailed(b: Bytes, i: nat, n: nat)
    requires i <= n && ReadNames(b, i).Failed?
    ensures ReadNames(b, n).Failed?
  {
    if i < n { NamesStayFailed(b, i, n - 1); }
  }

  method DecodePoint<P>(json: Json<P>, b: Bytes) returns (r: Option<Point<P>>)
    ensures r == Decode(json, b)
  {
    var id := ReadString(b, 2);
    if id.Failed? { return None; }
    var dim := ReadUint(id.rest, 4);
    if !dim.Got? { return None; }
    var vector := ReadWordsLoop(dim.rest, dim.value);
    if vector.Failed? { return None; }
    var payload := ReadString(vector.rest, 4);
    if payload.Failed? { return None; }
    var pl := Unmarshal(json, payload.value);
    if pl.None? { return None; }
    var p := Point(id.value, vector.value, pl.value, map[], None, map[], 0);
    var count := ReadUint(payload.rest, 2);
    if count.Eof? { return Some(p.(version := 1)); }
    if count.Short? { return None; }
    var named := ReadNamesLoop(count.rest, count.value);
    if named.Failed? { return None; }
    return DecodeTail(p.(named := named.value), named.rest);
  }

  // ---------- reading back ----------

  lemma {:induction false} WordsBack(ws: Words, rest: Bytes)
    ensures ReadWords(EncodeWords(ws) + rest, |ws|) == Done(ws, rest)
  {
    if ws == [] {
      assert EncodeWords(ws) + rest == rest;
    } else {
      var init, last := ws[..|ws| - 1], ws[|ws| - 1];
      assert EncodeWords(ws) + rest == EncodeWords(init) + (LE(last, 4) + rest);
      WordsBack(init, LE(last, 4) + rest);
      ReadUintBack(last, 4, rest);
      assert init + [last] == ws;
    }
  }

  lemma StringBack(s: Bytes, k: nat, rest: Bytes)
    requires k <= 8 && |s| < Pow256(k)
    ensures ReadString(LE(|s|, k) + (s + rest), k) == Done(s, rest)
  {
    ReadUintBack(|s|, k, s + rest);
    ReadBack(s, rest);
  }

  lemma VectorBack(ws: Words, rest: Bytes)
    requires |ws| < U32
    ensures ReadVector(LE(|ws|, 4) + (EncodeWords(ws) + rest)) == Done(ws, rest)
  {
    ReadUintBack(|ws|, 4, EncodeWords(ws) + rest);
    WordsBack(ws, rest);
  }

  lemma NamedBack(name: Bytes, ws: Words, rest: Bytes)
    requires |name| < U16 && |ws| < U32
    ensures ReadNamed(EncodeNamed(name, ws) + rest) == Done((name, ws), rest)
  {
    var tail := LE(|ws|, 4) + (EncodeWords(ws) + rest);
    assert EncodeNamed(name, ws) + rest == LE(|name|, 2) + (name + tail);
    StringBack(name, 2, tail);
    VectorBack(ws, rest);
  }

  /** The part of `m` that `order` names. */
  function Restrict(m: map<Bytes, Words>, order: seq<Bytes>): map<Bytes, Words> {
    map name | name in m && name in order :: m[name]
  }

  lemma RestrictNext(named: map<Bytes, Words>, init: seq<Bytes>, last: Bytes)
    requires last in named
    ensures Restrict(named, init + [last]) == Restrict(named, init)[last := named[last]]
  {
  }

  lemma {:induction false} NamesBack(named: map<Bytes, Words>, order: seq<Bytes>, rest: Bytes)
    requires NamesFit(named) && forall name :: name in order ==> name in named
    ensures ReadNames(EncodeNames(named, order) + rest, |order|) == Done(Restrict(named, order), rest)
  {
    if order == [] {
      assert EncodeNames(named, order) + rest == rest;
      assert Restrict(named, order) == map[];
    } else {
      var init, last := order[..|order| - 1], order[|order| - 1];
      assert last in order;
      var e := EncodeNamed(last, named[last]);
      Associate(EncodeNames(named, init), e, rest);
      NamesBack(named, init, e + rest);
      NamedBack(last, named[last], rest);
      RestrictNext(named, init, last);
      assert order == init + [last];
    }
  }

  lemma HeadBack<P>(p: Point<P>, payload: Bytes, rest: Bytes)
    requires |p.id| < U16 && |p.vector| < U32 && |payload| < U32
    ensures ReadHead(Head(p, payload) + rest) == Done(HeadFields(p.id, p.vector, payload), rest)
  {
    var c := LE(|payload|, 4) + (payload + rest);
    var b := LE(|p.vector|, 4) + (EncodeWords(p.vector) + c);
    assert Head(p, payload) + rest == LE(|p.id|, 2) + (p.id + b);
    StringBack(p.id, 2, b);
    VectorBack(p.vector, c);
    StringBack(payload, 4, rest);
  }

  lemma SparseHead(s: Sparse)
    requires |s.indices| < U32
    ensures var values := EncodeWords(s.values);
            ReadUint(EncodeSparse(s), 4) == Got(|s.indices|, EncodeWords(s.indices) + values)
            && ReadWords(EncodeWords(s.indices) + values, |s.indices|) == Done(s.indices, values)
  {
    ReadUintBack(|s.indices|, 4, EncodeWords(s.indices) + EncodeWords(s.values));
    WordsBack(s.indices, EncodeWords(s.values));
  }

  lemma WordsOf(b: Bytes, ws: Words, n: nat, rest: Bytes)
    requires b == EncodeWords(ws) + rest && n == |ws|
    ensures ReadWords(b, n) == Done(ws, rest)
  {
    WordsBack(ws, rest);
  }

  lemma ValuesEnough(values: Words, n: nat)
    requires n <= |values|
    ensures ReadWords(EncodeWords(values), n) == Done(values[..n], EncodeWords(values[n..]))
  {
    var front, back := values[..n], values[n..];
    assert EncodeWords(values) == EncodeWords(front) + EncodeWords(back) by {
      assert values == front + back;
      EncodeWordsConcat(front, back);
    }
    WordsOf(EncodeWords(values), front, n, EncodeWords(back));
  }

  lemma ValuesMissing(values: Words, n: nat)
    requires |values| < n
    ensures ReadWords(EncodeWords(values), n) == Failed
  {
    WordsBack(values, []);
    assert EncodeWords(values) + [] == EncodeWords(values);
    assert ReadWords(EncodeWords(values), |values| + 1).Failed?;
    WordsStayFailed(EncodeWords(values), |values| + 1, n);
  }

  /** A sparse part reads back with as many values as indices; missing values are an error. */
  lemma SparseBack(s: Sparse)
    requires |s.indices| < U32
    ensures ReadSparse(EncodeSparse(s)) ==
            if |s.values| < |s.indices| then Failed
            else Done(Sparse(s.indices, s.values[..|s.indices|]), EncodeWords(s.values[|s.indices|..]))
  {
    SparseHead(s);
    if |s.values| < |s.indices| {
      ValuesMissing(s.values, |s.indices|);
    } else {
      ValuesEnough(s.values, |s.indices|);
    }
  }

  lemma {:induction false} EncodeWordsConcat(a: Words, b: Words)
    ensures EncodeWords(a + b) == EncodeWords(a) + EncodeWords(b)
  {
    if b == [] {
      assert a + b == a;
    } else {
      var init := b[..|b| - 1];
      assert (a + b)[..|a + b| - 1] == a + init;
      EncodeWordsConcat(a, init);
    }
  }

  /** The sparse part of a point, as Decode gives it back. */
  function SparseRead<P>(p: Point<P>): Option<Option<Sparse>> {
    if p.sparse.None? then Some(None)
    else
      var s := p.sparse.value;
      if |s.values| < |s.indices| then None
      else Some(Some(Sparse(s.indices, s.values[..|s.indices|])))
  }

  lemma TailBack<P>(p: Point<P>, q: Point<P>)
    requires p.sparse.Some? ==> |p.sparse.value.indices| < U32
    requires q.sparse.None?
    ensures DecodeTail(q, LE(p.version, 8) + SparsePart(p)) ==
            if SparseRead(p).None? then None
            else Some(q.(version := p.version, sparse := SparseRead(p).value))
  {
    ReadUintBack(p.version, 8, SparsePart(p));
    if p.sparse.None? {
      assert [0 as byte] + [] == [0];
      ReadBack([0], []);
    } else {
      ReadBack([1], EncodeSparse(p.sparse.value));
      SparseBack(p.sparse.value);
    }
  }

  lemma RestBack<P>(p: Point<P>, q: Point<P>, order: seq<Bytes>)
    requires IsWalk(order, p.named) && |p.named| < U16 && NamesFit(p.named)
    requires p.sparse.Some? ==> |p.sparse.value.indices| < U32
    requires q.sparse.None?
    ensures DecodeRest(q, NamedPart(p, order) + (LE(p.version, 8) + SparsePart(p))) ==
            if SparseRead(p).None? then None
            else Some(q.(named := p.named, version := p.version, sparse := SparseRead(p).value))
  {
    var names, tail := EncodeNames(p.named, order), LE(p.version, 8) + SparsePart(p);
    Associate(LE(|p.named|, 2), names, tail);
    ReadUintBack(|p.named|, 2, names + tail);
    NamesBack(p.named, order, tail);
    assert Restrict(p.named, order) == p.named;
    TailBack(p, q.(named := p.named));
  }

  /** What Decode makes of an encoding, for every point and every order of the named vectors. */
  lemma DecodeEncode<P>(json: Json<P>, p: Point<P>, order: seq<Bytes>)
    requires IsWalk(order, p.named) && Fits(json, p)
    ensures var payload := Unmarshal(json, json.marshal(p.payload).value);
            Decode(json, Encode(json, p, order).value) ==
            if payload.None? || SparseRead(p).None? then None
            else Some(p.(payload := payload.value, sparse := SparseRead(p).value, multi := map[]))
  {
    var bytes := json.marshal(p.payload).value;
    HeadBack(p, bytes, NamedPart(p, order) + (LE(p.version, 8) + SparsePart(p)));
    var payload := Unmarshal(json, bytes);
    if payload.Some? {
      RestBack(p, Point(p.id, p.vector, payload.value, map[], None, map[], 0), order);
    }
  }

  /** The payload survives its JSON, there is nothing that the format does not carry, and the sparse lists match. */
  predicate Restorable<P(==)>(json: Json<P>, p: Point<P>) {
    && json.marshal(p.payload).Some?
    && Unmarshal(json, json.marshal(p.payload).value) == Some(p.payload)
    && p.multi == map[]
    && (p.sparse.Some? ==> |p.sparse.value.indices| == |p.sparse.value.values|)
  }

  /** Encoding and decoding gives the point back, in every order of the named vectors, exactly when it is restorable. */
  lemma RoundTrip<P>(json: Json<P>, p: Point<P>, order: seq<Bytes>)
    requires IsWalk(order, p.named) && Fits(json, p)
    ensures Decode(json, Encode(json, p, order).value) == Some(p) <==> Restorable(json, p)
  {
    DecodeEncode(json, p, order);
    if p.sparse.Some? {
      var s := p.sparse.value;
      if |s.values| == |s.indices| {
        assert s.values[..|s.indices|] == s.values;
      }
    }
  }

  // ---------- prefixes ----------

  /** A parser that succeeds succeeds in the same way when more bytes follow. */
  lemma ExtendFull(b: Bytes, n: nat, x: Bytes)
    requires ReadFull(b, n).Got?
    ensures ReadFull(b + x, n) == Got(ReadFull(b, n).value, ReadFull(b, n).rest + x)
  {
    var r := ReadFull(b, n);
    assert b + x == r.value + (r.rest + x);
    ReadBack(r.value, r.rest + x);
  }

  lemma {:induction false} ExtendWords(b: Bytes, n: nat, x: Bytes)
    requires ReadWords(b, n).Done?
    ensures ReadWords(b + x, n) == Done(ReadWords(b, n).value, ReadWords(b, n).rest + x)
  {
    if n > 0 {
      ExtendWords(b, n - 1, x);
      ExtendFull(ReadWords(b, n - 1).rest, 4, x);
    }
  }

  lemma ExtendString(b: Bytes, k: nat, x: Bytes)
    requires ReadString(b, k).Done?
    ensures ReadString(b + x, k) == Done(ReadString(b, k).value, ReadString(b, k).rest + x)
  {
    ExtendFull(b, k, x);
    var n := ReadUint(b, k);
    ExtendFull(n.rest, n.value, x);
  }

  lemma ExtendVector(b: Bytes, x: Bytes)
    requires ReadVector(b).Done?
    ensures ReadVector(b + x) == Done(ReadVector(b).value, ReadVector(b).rest + x)
  {
    ExtendFull(b, 4, x);
    var n := ReadUint(b, 4);
    ExtendWords(n.rest, n.value, x);
  }

  lemma ExtendNamed(b: Bytes, x: Bytes)
    requires ReadNamed(b).Done?
    ensures ReadNamed(b + x) == Done(ReadNamed(b).value, ReadNamed(b).rest + x)
  {
    ExtendString(b, 2, x);
    ExtendVector(ReadString(b, 2).rest, x);
  }

  lemma {:induction false} ExtendNames(b: Bytes, n: nat, x: Bytes)
    requires ReadNames(b, n).Done?
    ensures ReadNames(b + x, n) == Done(ReadNames(b, n).value, ReadNames(b, n).rest + x)
  {
    if n > 0 {
      ExtendNames(b, n - 1, x);
      ExtendNamed(ReadNames(b, n - 1).rest, x);
    }
  }

  lemma ExtendHead(b: Bytes, x: Bytes)
    requires ReadHead(b).Done?
    ensures ReadHead(b + x) == Done(ReadHead(b).value, ReadHead(b).rest + x)
  {
    ExtendString(b, 2, x);
    var id := ReadString(b, 2);
    ExtendVector(id.rest, x);
    ExtendString(ReadVector(id.rest).rest, 4, x);
  }

  lemma ExtendSparse(b: Bytes, x: Bytes)
    requires ReadSparse(b).Done?
    ensures ReadSparse(b + x) == Done(ReadSparse(b).value, ReadSparse(b).rest + x)
  {
    ExtendFull(b, 4, x);
    var n := ReadUint(b, 4);
    ExtendWords(n.rest, n.value, x);
    ExtendWords(ReadWords(n.rest, n.value).rest, n.value, x);
  }

  /** So a proper prefix of what a parser consumes to the end is an error. */
  lemma HeadCut<P>(p: Point<P>, payload: Bytes, c: nat)
    requires |p.id| < U16 && |p.vector| < U32 && |payload| < U32
    requires c < |Head(p, payload)|
    ensures ReadHead(Head(p, payload)[..c]).Failed?
  {
    var e := Head(p, payload);
    assert e + [] == e && e[..c] + e[c..] == e;
    HeadBack(p, payload, []);
    if ReadHead(e[..c]).Done? { ExtendHead(e[..c], e[c..]); }
  }

  lemma NamesCut(named: map<Bytes, Words>, order: seq<Bytes>, c: nat)
    requires NamesFit(named) && forall name :: name in order ==> name in named
    requires c < |EncodeNames(named, order)|
    ensures ReadNames(EncodeNames(named, order)[..c], |order|).Failed?
  {
    var e := EncodeNames(named, order);
    assert e + [] == e && e[..c] + e[c..] == e;
    NamesBack(named, order, []);
    if ReadNames(e[..c], |order|).Done? { ExtendNames(e[..c], |order|, e[c..]); }
  }

  lemma EqualSparseCut(s: Sparse, c: nat)
    requires |s.indices| < U32 && |s.values| == |s.indices|
    requires c < |EncodeSparse(s)|
    ensures ReadSparse(EncodeSparse(s)[..c]).Failed?
  {
    var e := EncodeSparse(s);
    assert e[..c] + e[c..] == e;
    SparseBack(s);
    if ReadSparse(e[..c]).Done? { ExtendSparse(e[..c], e[c..]); }
  }

  /** The part of a sparse encoding that Decode reads: as many values as indices. */
  function Needed(s: Sparse): nat { 4 + 8 * |s.indices| }

  lemma EnoughSparse(s: Sparse)
    requires |s.values| >= |s.indices|
    ensures var t := Sparse(s.indices, s.values[..|s.indices|]);
            |EncodeSparse(t)| == Needed(s) && EncodeSparse(t) <= EncodeSparse(s)
  {
    var n := |s.indices|;
    assert s.values == s.values[..n] + s.values[n..];
    EncodeWordsConcat(s.values[..n], s.values[n..]);
  }

  lemma MissingSparse(s: Sparse, c: nat)
    requires |s.indices| < U32 && |s.values| < |s.indices| && c <= |EncodeSparse(s)|
    ensures ReadSparse(EncodeSparse(s)[..c]).Failed?
  {
    var e := EncodeSparse(s);
    assert e[..c] + e[c..] == e;
    SparseBack(s);
    if ReadSparse(e[..c]).Done? { ExtendSparse(e[..c], e[c..]); }
  }

  lemma SparseCut(s: Sparse, c: nat)
    requires |s.indices| < U32 && c <= |EncodeSparse(s)|
    ensures var r := ReadSparse(EncodeSparse(s)[..c]);
            if |s.values| >= |s.indices| && c >= Needed(s)
            then r.Done? && r.value == Sparse(s.indices, s.values[..|s.indices|]) else r.Failed?
  {
    if |s.values| < |s.indices| {
      MissingSparse(s, c);
    } else {
      EnoughSparse(s);
      var t := Sparse(s.indices, s.values[..|s.indices|]);
      var e, whole := EncodeSparse(t), EncodeSparse(s);
      if c < Needed(s) {
        assert whole[..c] == e[..c];
        EqualSparseCut(t, c);
      } else {
        assert whole[..c] == e + whole[|e|..c];
        SparseBack(t);
        assert t.values[..|t.indices|] == t.values;
        ExtendSparse(e, whole[|e|..c]);
      }
    }
  }

  /** The bytes before the three places where an older writer may have stopped. */
  function LegacyCuts<P>(p: Point<P>, payload: Bytes, order: seq<Bytes>): (nat, nat, nat)
    requires forall name :: name in order ==> name in p.named
  {
    var a := |Head(p, payload)|;
    var b := a + |NamedPart(p, order)|;
    (a, b, b + 8)
  }

  /** `c` bytes after the version hold all of the sparse part that Decode reads. */
  predicate SparseComplete<P>(p: Point<P>, c: int) {
    && p.sparse.Some? && |p.sparse.value.values| >= |p.sparse.value.indices|
    && c >= 1 + Needed(p.sparse.value)
  }

  /** What is decoded when `c` bytes remain of the version and the sparse part. */
  function CutTail<P>(p: Point<P>, q: Point<P>, c: int): Option<Point<P>> {
    if c == 0 then Some(q.(version := 1))
    else if c == 8 then Some(q.(version := p.version))
    else if SparseComplete(p, c - 8) then Some(q.(version := p.version, sparse := SparseRead(p).value))
    else None
  }

  lemma TailCut<P>(p: Point<P>, q: Point<P>, c: nat)
    requires (p.sparse.Some? ==> |p.sparse.value.indices| < U32) && q.sparse.None?
    requires c < 8 + |SparsePart(p)|
    ensures DecodeTail(q, (LE(p.version, 8) + SparsePart(p))[..c]) == CutTail(p, q, c)
  {
    ReadUintCut(p.version, 8, SparsePart(p), c);
    if c > 8 {
      var s := p.sparse.value;
      ReadCut([1], EncodeSparse(s), c - 8);
      SparseCut(s, c - 9);
    }
  }

  lemma NamesThenTailCut(named: map<Bytes, Words>, order: seq<Bytes>, tail: Bytes, c: nat)
    requires IsWalk(order, named) && NamesFit(named)
    requires c <= |EncodeNames(named, order)| + |tail|
    ensures var names := EncodeNames(named, order);
            ReadNames((names + tail)[..c], |named|) ==
            if c < |names| then Failed else Done(named, tail[..c - |names|])
  {
    var names := EncodeNames(named, order);
    if c < |names| {
      assert (names + tail)[..c] == names[..c];
      NamesCut(named, order, c);
    } else {
      assert (names + tail)[..c] == names + tail[..c - |names|];
      NamesBack(named, order, tail[..c - |names|]);
      assert Restrict(named, order) == named;
    }
  }

  /** Decoding the names and what follows, given what reading the names gives. */
  lemma DecodeNamesOf<P>(q: Point<P>, n: nat, b: Bytes, named: map<Bytes, Words>, rest: Bytes)
    requires ReadNames(b, n) == Done(named, rest)
    ensures DecodeNames(q, n, b) == DecodeTail(q.(named := named), rest)
  {
  }

  lemma DecodeNamesFails<P>(q: Point<P>, n: nat, b: Bytes)
    requires ReadNames(b, n) == Failed
    ensures DecodeNames(q, n, b) == None
  {
  }

  lemma TailOf<P>(p: Point<P>, q: Point<P>, tail: Bytes, c: nat) returns (got: Option<Point<P>>)
    requires (p.sparse.Some? ==> |p.sparse.value.indices| < U32) && q.sparse.None?
    requires tail == LE(p.version, 8) + SparsePart(p) && c < |tail|
    ensures got == DecodeTail(q, tail[..c]) && got == CutTail(p, q, c)
  {
    got := CutTail(p, q, c);
    TailCut(p, q, c);
  }

  /** What is decoded when `c` bytes remain of the names and what follows them. */
  lemma DecodeNamesCut<P>(p: Point<P>, q: Point<P>, order: seq<Bytes>, names: Bytes, tail: Bytes, c: nat)
    returns (got: Option<Point<P>>)
    requires IsWalk(order, p.named) && NamesFit(p.named)
    requires (p.sparse.Some? ==> |p.sparse.value.indices| < U32) && q.sparse.None?
    requires names == EncodeNames(p.named, order) && tail == LE(p.version, 8) + SparsePart(p) && c < |names| + |tail|
    ensures got == DecodeNames(q, |p.named|, (names + tail)[..c])
    ensures got == if c < |names| then None else CutTail(p, q.(named := p.named), c - |names|)
  {
    NamesThenTailCut(p.named, order, tail, c);
    if c < |names| {
      got := None;
      DecodeNamesFails(q, |p.named|, (names + tail)[..c]);
    } else {
      got := TailOf(p, q.(named := p.named), tail, c - |names|);
      DecodeNamesOf(q, |p.named|, (names + tail)[..c], p.named, tail[..c - |names|]);
    }
  }

  lemma DecodeRestOf<P>(q: Point<P>, b: Bytes, n: nat, rest: Bytes)
    requires ReadUint(b, 2) == Got(n, rest)
    ensures DecodeRest(q, b) == DecodeNames(q, n, rest)
  {
  }

  /** What is decoded when `c` bytes remain of the part after the payload, `n` of which are the named vectors. */
  function CutRest<P>(p: Point<P>, q: Point<P>, n: nat, c: nat): Option<Point<P>> {
    if c == 0 then Some(q.(version := 1))
    else if c < n then None
    else CutTail(p, q.(named := p.named), c - n)
  }

  /** A cut before the count of the named vectors is complete. */
  lemma CountMissing<P>(q: Point<P>, n: nat, more: Bytes, c: nat)
    requires n < U16 && c < 2
    ensures DecodeRest(q, (LE(n, 2) + more)[..c]) == if c == 0 then Some(q.(version := 1)) else None
  {
    ReadUintCut(n, 2, more, c);
  }

  lemma CountThen<P>(q: Point<P>, n: nat, more: Bytes, c: nat, next: Option<Point<P>>)
    requires n < U16 && c <= |more| && DecodeNames(q, n, more[..c]) == next
    ensures DecodeRest(q, (LE(n, 2) + more)[..2 + c]) == next
  {
    ReadUintCut(n, 2, more, 2 + c);
    DecodeRestOf(q, (LE(n, 2) + more)[..2 + c], n, more[..c]);
  }

  /** A cut inside the count of the named vectors. */
  lemma CutInCount<P>(p: Point<P>, q: Point<P>, n: nat, c: nat)
    requires c < 2 <= n
    ensures CutRest(p, q, n, c) == if c == 0 then Some(q.(version := 1)) else None
  {
  }

  /** A cut after it. */
  lemma CutAfterCount<P>(p: Point<P>, q: Point<P>, n: nat, c: nat)
    ensures CutRest(p, q, 2 + n, 2 + c) == if c < n then None else CutTail(p, q.(named := p.named), c - n)
  {
  }

  lemma CountedCut<P>(p: Point<P>, q: Point<P>, order: seq<Bytes>, names: Bytes, tail: Bytes, c: nat)
    returns (got: Option<Point<P>>)
    requires IsWalk(order, p.named) && |p.named| < U16 && NamesFit(p.named)
    requires (p.sparse.Some? ==> |p.sparse.value.indices| < U32) && q.sparse.None?
    requires names == EncodeNames(p.named, order) && tail == LE(p.version, 8) + SparsePart(p) && c < |names| + |tail|
    ensures got == DecodeRest(q, (LE(|p.named|, 2) + (names + tail))[..2 + c])
    ensures got == if c < |names| then None else CutTail(p, q.(named := p.named), c - |names|)
  {
    got := DecodeNamesCut(p, q, order, names, tail, c);
    CountThen(q, |p.named|, names + tail, c, got);
  }

  /** A cut at most inside the count. */
  lemma ShortCut<P>(p: Point<P>, q: Point<P>, more: Bytes, m: nat, c: nat) returns (got: Option<Point<P>>)
    requires |p.named| < U16 && c < 2
    ensures got == DecodeRest(q, (LE(|p.named|, 2) + more)[..c])
    ensures got == CutRest(p, q, 2 + m, c)
  {
    got := CutRest(p, q, 2 + m, c);
    CutInCount(p, q, 2 + m, c);
    CountMissing(q, |p.named|, more, c);
  }

  lemma LongCut<P>(p: Point<P>, q: Point<P>, order: seq<Bytes>, names: Bytes, tail: Bytes, c: nat)
    returns (got: Option<Point<P>>)
    requires IsWalk(order, p.named) && |p.named| < U16 && NamesFit(p.named)
    requires (p.sparse.Some? ==> |p.sparse.value.indices| < U32) && q.sparse.None?
    requires names == EncodeNames(p.named, order) && tail == LE(p.version, 8) + SparsePart(p) && c < |names| + |tail|
    ensures got == DecodeRest(q, (LE(|p.named|, 2) + (names + tail))[..2 + c])
    ensures got == CutRest(p, q, 2 + |names|, 2 + c)
  {
    got := CountedCut(p, q, order, names, tail, c);
    CutAfterCount(p, q, |names|, c);
  }

  lemma NamedCut<P>(p: Point<P>, q: Point<P>, order: seq<Bytes>, names: Bytes, tail: Bytes, c: nat)
    returns (got: Option<Point<P>>)
    requires IsWalk(order, p.named) && |p.named| < U16 && NamesFit(p.named)
    requires (p.sparse.Some? ==> |p.sparse.value.indices| < U32) && q.sparse.None?
    requires names == EncodeNames(p.named, order) && tail == LE(p.version, 8) + SparsePart(p) && c < 2 + |names| + |tail|
    ensures got == DecodeRest(q, (LE(|p.named|, 2) + (names + tail))[..c])
    ensures got == CutRest(p, q, 2 + |names|, c)
  {
    if c < 2 {
      got := ShortCut(p, q, names + tail, |names|, c);
    } else {
      got := LongCut(p, q, order, names, tail, c - 2);
    }
  }

  lemma RestCut<P>(p: Point<P>, q: Point<P>, order: seq<Bytes>, rest: Bytes, c: nat)
    returns (got: Option<Point<P>>)
    requires IsWalk(order, p.named) && |p.named| < U16 && NamesFit(p.named)
    requires (p.sparse.Some? ==> |p.sparse.value.indices| < U32) && q.sparse.None?
    requires rest == NamedPart(p, order) + (LE(p.version, 8) + SparsePart(p)) && c < |rest|
    ensures got == DecodeRest(q, rest[..c])
    ensures got == CutRest(p, q, |NamedPart(p, order)|, c)
  {
    var names, tail := EncodeNames(p.named, order), LE(p.version, 8) + SparsePart(p);
    assert rest == LE(|p.named|, 2) + (names + tail) by {
      Associate(LE(|p.named|, 2), names, tail);
    }
    got := NamedCut(p, q, order, names, tail, c);
  }

  lemma DecodeOf<P>(json: Json<P>, b: Bytes, h: HeadFields, rest: Bytes, payload: P)
    requires ReadHead(b) == Done(h, rest) && Unmarshal(json, h.payload) == Some(payload)
    ensures Decode(json, b) == DecodeRest(Point(h.id, h.vector, payload, map[], None, map[], 0), rest)
  {
  }

  /** A cut after the payload leaves the head whole. */
  lemma BeyondHeadCut<P>(json: Json<P>, p: Point<P>, order: seq<Bytes>, rest: Bytes, c: nat, payload: P)
    requires IsWalk(order, p.named) && Fits(json, p)
    requires rest == NamedPart(p, order) + (LE(p.version, 8) + SparsePart(p)) && c < |rest|
    requires Unmarshal(json, json.marshal(p.payload).value) == Some(payload)
    ensures Decode(json, Head(p, json.marshal(p.payload).value) + rest[..c])
         == CutRest(p, Point(p.id, p.vector, payload, map[], None, map[], 0), |NamedPart(p, order)|, c)
  {
    var bytes := json.marshal(p.payload).value;
    HeadBack(p, bytes, rest[..c]);
    DecodeOf(json, Head(p, bytes) + rest[..c], HeadFields(p.id, p.vector, bytes), rest[..c], payload);
    var _ := RestCut(p, Point(p.id, p.vector, payload, map[], None, map[], 0), order, rest, c);
  }

  /** What is decoded of the first `c` bytes of an encoding, when its payload reads as `payload`. */
  function CutPoint<P>(p: Point<P>, payload: P, cuts: (nat, nat, nat), c: nat): Option<Point<P>> {
    var q := p.(payload := payload, multi := map[]);
    if c == cuts.0 then Some(q.(named := map[], version := 1, sparse := None))
    else if c == cuts.1 then Some(q.(version := 1, sparse := None))
    else if c == cuts.2 then Some(q.(sparse := None))
    else if SparseComplete(p, c - cuts.2) then Some(q.(sparse := SparseRead(p).value))
    else None
  }

  lemma CutRestIsPoint<P>(p: Point<P>, payload: P, head: nat, n: nat, c: nat)
    requires n >= 2
    ensures CutRest(p, Point(p.id, p.vector, payload, map[], None, map[], 0), n, c)
         == CutPoint(p, payload, (head, head + n, head + n + 8), head + c)
  {
  }

  /** What is decoded of the first `c` bytes of an encoding. */
  function CutDecoded<P>(json: Json<P>, p: Point<P>, bytes: Bytes, cuts: (nat, nat, nat), c: nat): Option<Point<P>> {
    if Unmarshal(json, bytes).None? then None else CutPoint(p, Unmarshal(json, bytes).value, cuts, c)
  }

  lemma InHeadCut<P>(json: Json<P>, p: Point<P>, bytes: Bytes, head: Bytes, b: Bytes, cuts: (nat, nat, nat), c: nat)
    returns (got: Option<Point<P>>)
    requires |p.id| < U16 && |p.vector| < U32 && |bytes| < U32 && head == Head(p, bytes)
    requires c < |head| <= cuts.0 <= cuts.1 <= cuts.2 && b == head[..c]
    ensures got == Decode(json, b) == CutDecoded(json, p, bytes, cuts, c)
  {
    got := None;
    HeadCut(p, bytes, c);
  }

  lemma PayloadReadCut<P>(json: Json<P>, p: Point<P>, order: seq<Bytes>, head: Bytes, rest: Bytes, b: Bytes, c: nat,
                          payload: P)
    returns (got: Option<Point<P>>)
    requires IsWalk(order, p.named) && Fits(json, p) && head == Head(p, json.marshal(p.payload).value)
    requires rest == NamedPart(p, order) + (LE(p.version, 8) + SparsePart(p)) && c < |rest| && b == head + rest[..c]
    requires Unmarshal(json, json.marshal(p.payload).value) == Some(payload)
    ensures got == Decode(json, b)
    ensures var n := |NamedPart(p, order)|; got == CutPoint(p, payload, (|head|, |head| + n, |head| + n + 8), |head| + c)
  {
    got := CutRest(p, Point(p.id, p.vector, payload, map[], None, map[], 0), |NamedPart(p, order)|, c);
    BeyondHeadCut(json, p, order, rest, c, payload);
    CutRestIsPoint(p, payload, |head|, |NamedPart(p, order)|, c);
  }

  lemma PayloadUnreadCut<P>(json: Json<P>, p: Point<P>, bytes: Bytes, b: Bytes, rest: Bytes)
    requires |p.id| < U16 && |p.vector| < U32 && |bytes| < U32
    requires b == Head(p, bytes) + rest && Unmarshal(json, bytes).None?
    ensures Decode(json, b).None?
  {
    HeadBack(p, bytes, rest);
  }

  lemma AfterHeadCut<P>(json: Json<P>, p: Point<P>, order: seq<Bytes>, head: Bytes, rest: Bytes, b: Bytes,
                        cuts: (nat, nat, nat), c: nat)
    returns (got: Option<Point<P>>)
    requires IsWalk(order, p.named) && Fits(json, p) && head == Head(p, json.marshal(p.payload).value)
    requires rest == NamedPart(p, order) + (LE(p.version, 8) + SparsePart(p)) && c < |rest| && b == head + rest[..c]
    requires cuts == LegacyCuts(p, json.marshal(p.payload).value, order)
    ensures got == Decode(json, b) == CutDecoded(json, p, json.marshal(p.payload).value, cuts, |head| + c)
  {
    var bytes := json.marshal(p.payload).value;
    match Unmarshal(json, bytes)
    case Some(payload) => got := PayloadReadCut(json, p, order, head, rest, b, c, payload);
    case None =>
      got := None;
      PayloadUnreadCut(json, p, bytes, b, rest[..c]);
  }

  lemma EncodingCut<P>(json: Json<P>, p: Point<P>, order: seq<Bytes>, head: Bytes, rest: Bytes, b: Bytes,
                       cuts: (nat, nat, nat), c: nat)
    returns (got: Option<Point<P>>)
    requires IsWalk(order, p.named) && Fits(json, p) && head == Head(p, json.marshal(p.payload).value)
    requires rest == NamedPart(p, order) + (LE(p.version, 8) + SparsePart(p)) && c < |head + rest| && b == (head + rest)[..c]
    requires cuts == LegacyCuts(p, json.marshal(p.payload).value, order)
    ensures got == Decode(json, b) == CutDecoded(json, p, json.marshal(p.payload).value, cuts, c)
  {
    if c < |head| {
      got := InHeadCut(json, p, json.marshal(p.payload).value, head, b, cuts, c);
    } else {
      got := AfterHeadCut(json, p, order, head, rest, b, cuts, c - |head|);
    }
  }

  /**
   Decoding a proper prefix of an encoding fails, except at exactly three cuts: after the payload, after the
   named vectors and after the version.  There it gives the point as an older writer would have meant it.
   Only when there are more sparse values than indices can a longer prefix decode: one that reaches past
   the values that are read.
   */
  lemma PrefixDecodes<P>(json: Json<P>, p: Point<P>, order: seq<Bytes>, c: nat)
    requires IsWalk(order, p.named) && Fits(json, p)
    requires c < |Encode(json, p, order).value|
    ensures var bytes := json.marshal(p.payload).value;
            Decode(json, Encode(json, p, order).value[..c]) == CutDecoded(json, p, bytes, LegacyCuts(p, bytes, order), c)
  {
    var bytes := json.marshal(p.payload).value;
    var rest := NamedPart(p, order) + (LE(p.version, 8) + SparsePart(p));
    var b := Encode(json, p, order).value[..c];
    var _ := EncodingCut(json, p, order, Head(p, bytes), rest, b, LegacyCuts(p, bytes, order), c);
  }

  /** With equal sparse lists, or none, the three legacy cuts are the only ones. */
  lemma OnlyLegacyCuts<P>(json: Json<P>, p: Point<P>, order: seq<Bytes>, c: nat)
    requires IsWalk(order, p.named) && Fits(json, p) && c < |Encode(json, p, order).value|
    requires p.sparse.Some? ==> |p.sparse.value.indices| == |p.sparse.value.values|
    ensures var cuts := LegacyCuts(p, json.marshal(p.payload).value, order);
            Decode(json, Encode(json, p, order).value[..c]).Some? <==>
            Unmarshal(json, json.marshal(p.payload).value).Some? && c in {cuts.0, cuts.1, cuts.2}
  {
    PrefixDecodes(json, p, order, c);
  }
}
