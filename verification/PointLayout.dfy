/**
 Where every byte of an encoded point stands, pkg/point/point.go: the format said by offsets, beside `PointCodec`,
 which says what is read back.
 */
module PointLayout {
  import opened Bytes
  import opened PointCodec
  import opened Wrappers

  /** The words stand one behind the other, four bytes each. */
  predicate WordsAt(e: Bytes, from: nat, ws: Words) {
    from + 4 * |ws| <= |e| && forall k :: 0 <= k < |ws| ==> At(e, from + 4 * k, LE(ws[k], 4))
  }

  lemma {:induction false} WordLayout(ws: Words, n: nat, k: nat)
    requires k < n <= |ws|
    ensures At(EncodeWords(ws[..n]), 4 * k, LE(ws[k], 4))
  {
    var front, last := EncodeWords(ws[..n - 1]), LE(ws[n - 1], 4);
    assert ws[..n][..n - 1] == ws[..n - 1] && ws[..n][n - 1] == ws[n - 1];
    if k < n - 1 {
      WordLayout(ws, n - 1, k);
      AtFront(front, last, 4 * k, LE(ws[k], 4));
    } else {
      AtBack(front, last);
    }
  }

  lemma AtFront(a: Bytes, b: Bytes, from: nat, field: Bytes)
    requires At(a, from, field)
    ensures At(a + b, from, field)
  {
  }

  lemma AtBack(a: Bytes, b: Bytes)
    ensures At(a + b, |a|, b)
  {
  }

  lemma AtInside(e: Bytes, outer: nat, part: Bytes, from: nat, field: Bytes)
    requires At(e, outer, part) && At(part, from, field)
    ensures At(e, outer + from, field)
  {
    forall i | 0 <= i < |field| ensures e[outer + from + i] == field[i] {
      assert part[from + i] == field[i];
    }
  }

  lemma WordsInside(e: Bytes, from: nat, ws: Words)
    requires At(e, from, EncodeWords(ws))
    ensures WordsAt(e, from, ws)
  {
    assert ws[..|ws|] == ws;
    forall k | 0 <= k < |ws| ensures At(e, from + 4 * k, LE(ws[k], 4)) {
      WordLayout(ws, |ws|, k);
      AtInside(e, from, EncodeWords(ws), 4 * k, LE(ws[k], 4));
    }
  }

  /** Length of the ID, the ID, number of coordinates, the coordinates, length of the payload, the payload. */
  predicate HeadLaidOut<P>(p: Point<P>, payload: Bytes, h: Bytes) {
    var i, v := |p.id|, 4 * |p.vector|;
    && |h| == 10 + i + v + |payload|
    && At(h, 0, LE(i, 2)) && At(h, 2, p.id)
    && At(h, 2 + i, LE(|p.vector|, 4)) && WordsAt(h, 6 + i, p.vector)
    && At(h, 6 + i + v, LE(|payload|, 4)) && At(h, 10 + i + v, payload)
  }

  lemma HeadLayout<P>(p: Point<P>, payload: Bytes, h: Bytes)
    requires h == Head(p, payload)
    ensures HeadLaidOut(p, payload, h)
  {
    var i, v := |p.id|, 4 * |p.vector|;
    var c := LE(|payload|, 4) + payload;
    var w := EncodeWords(p.vector) + c;
    var n := LE(|p.vector|, 4) + w;
    Whole(h);
    TakeField(h, 0, LE(i, 2), p.id + n);
    TakeField(h, 2, p.id, n);
    TakeField(h, 2 + i, LE(|p.vector|, 4), w);
    TakeField(h, 6 + i, EncodeWords(p.vector), c);
    TakeField(h, 6 + i + v, LE(|payload|, 4), payload);
    WordsInside(h, 6 + i, p.vector);
  }

  /** One named vector: length of the name, the name, number of coordinates, the coordinates. */
  predicate NamedLaidOut(name: Bytes, ws: Words, b: Bytes) {
    && |b| == 6 + |name| + 4 * |ws|
    && At(b, 0, LE(|name|, 2)) && At(b, 2, name)
    && At(b, 2 + |name|, LE(|ws|, 4)) && WordsAt(b, 6 + |name|, ws)
  }

  lemma NamedLayout(name: Bytes, ws: Words, b: Bytes)
    requires b == EncodeNamed(name, ws)
    ensures NamedLaidOut(name, ws, b)
  {
    var w := EncodeWords(ws);
    var n := LE(|ws|, 4) + w;
    Whole(b);
    TakeField(b, 0, LE(|name|, 2), name + n);
    TakeField(b, 2, name, n);
    TakeField(b, 2 + |name|, LE(|ws|, 4), w);
    WordsInside(b, 6 + |name|, ws);
  }

  /** The bytes that the first `k` named vectors of the walk take. */
  function NamesSize(named: map<Bytes, Words>, order: seq<Bytes>, k: nat): nat
    requires k <= |order| && forall name :: name in order ==> name in named
  {
    if k == 0 then 0 else NamesSize(named, order, k - 1) + 6 + |order[k - 1]| + 4 * |named[order[k - 1]]|
  }

  lemma {:induction false} NamesSizes(named: map<Bytes, Words>, order: seq<Bytes>, k: nat)
    requires k <= |order| && forall name :: name in order ==> name in named
    ensures NamesSize(named, order, k) == |EncodeNames(named, order[..k])|
  {
    if k > 0 {
      NamesSizes(named, order, k - 1);
      assert order[..k][..k - 1] == order[..k - 1] && order[..k][k - 1] == order[k - 1];
    } else {
      assert order[..0] == [];
    }
  }

  /** The named vectors stand one behind the other, in the order of the walk. */
  lemma {:induction false} NamesLayout(named: map<Bytes, Words>, order: seq<Bytes>, n: nat, k: nat)
    requires k < n <= |order| && forall name :: name in order ==> name in named
    ensures At(EncodeNames(named, order[..n]), NamesSize(named, order, k), EncodeNamed(order[k], named[order[k]]))
  {
    var front, last := EncodeNames(named, order[..n - 1]), EncodeNamed(order[n - 1], named[order[n - 1]]);
    assert order[..n][..n - 1] == order[..n - 1] && order[..n][n - 1] == order[n - 1];
    if k < n - 1 {
      NamesLayout(named, order, n - 1, k);
      AtFront(front, last, NamesSize(named, order, k), EncodeNamed(order[k], named[order[k]]));
    } else {
      NamesSizes(named, order, k);
      AtBack(front, last);
    }
  }

  /** No sparse vector is a zero byte; otherwise a one, the number of indices, the indices and the values. */
  predicate SparseLaidOut(sparse: Option<Sparse>, b: Bytes) {
    if sparse.None? then b == [0]
    else
      var s := sparse.value;
      && |b| == 5 + 4 * |s.indices| + 4 * |s.values|
      && At(b, 0, [1]) && At(b, 1, LE(|s.indices|, 4))
      && WordsAt(b, 5, s.indices) && WordsAt(b, 5 + 4 * |s.indices|, s.values)
  }

  lemma ListsLayout(s: Sparse, b: Bytes)
    requires b == [1] + EncodeSparse(s)
    ensures |b| == 5 + 4 * |s.indices| + 4 * |s.values| && At(b, 0, [1]) && At(b, 1, LE(|s.indices|, 4))
    ensures At(b, 5, EncodeWords(s.indices)) && At(b, 5 + 4 * |s.indices|, EncodeWords(s.values))
  {
    var v := EncodeWords(s.values);
    var i := EncodeWords(s.indices) + v;
    Whole(b);
    TakeField(b, 0, [1], LE(|s.indices|, 4) + i);
    TakeField(b, 1, LE(|s.indices|, 4), i);
    TakeField(b, 5, EncodeWords(s.indices), v);
  }

  lemma SparseLayout<P>(p: Point<P>, b: Bytes)
    requires b == SparsePart(p)
    ensures SparseLaidOut(p.sparse, b)
  {
    if p.sparse.Some? {
      var s := p.sparse.value;
      ListsLayout(s, b);
      WordsInside(b, 5, s.indices);
      WordsInside(b, 5 + 4 * |s.indices|, s.values);
    }
  }

  lemma PartsLayout(head: Bytes, count: Bytes, names: Bytes, version: Bytes, sparse: Bytes, e: Bytes)
    requires e == head + ((count + names) + (version + sparse))
    ensures At(e, 0, head) && At(e, |head|, count) && At(e, |head| + |count|, names)
    ensures At(e, |head| + |count| + |names|, version)
    ensures Ends(e, |head| + |count| + |names| + |version|, sparse)
  {
    Whole(e);
    Associate(count, names, version + sparse);
    TakeField(e, 0, head, count + (names + (version + sparse)));
    TakeField(e, |head|, count, names + (version + sparse));
    TakeField(e, |head| + |count|, names, version + sparse);
    TakeField(e, |head| + |count| + |names|, version, sparse);
  }

  /** An encoded point: its head, the number of named vectors, these, the version, the sparse vector. */
  lemma EncodingLayout<P>(json: Json<P>, p: Point<P>, order: seq<Bytes>, e: Bytes)
    requires IsWalk(order, p.named) && Encode(json, p, order) == Some(e)
    ensures var head, names := Head(p, json.marshal(p.payload).value), EncodeNames(p.named, order);
            && At(e, 0, head) && At(e, |head|, LE(|p.named|, 2)) && At(e, |head| + 2, names)
            && At(e, |head| + 2 + |names|, LE(p.version, 8))
            && Ends(e, |head| + 2 + |names| + 8, SparsePart(p))
  {
    var head, names := Head(p, json.marshal(p.payload).value), EncodeNames(p.named, order);
    PartsLayout(head, LE(|p.named|, 2), names, LE(p.version, 8), SparsePart(p), e);
  }
}
