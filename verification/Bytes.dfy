/**
 Little-endian integers and exact reads, as encoding/binary and io.ReadFull give them to
 pkg/point/point.go and pkg/storage/wal/wal.go.
 */
module Bytes {

  type byte = n: int | 0 <= n < 256

  type Bytes = seq<byte>

  const U16 := 0x1_0000
  const U32 := 0x1_0000_0000
  const U64 := 0x1_0000_0000_0000_0000

  type u32 = n: int | 0 <= n < U32
  type u64 = n: int | 0 <= n < U64

  function Pow256(k: nat): (p: nat)
    ensures p > 0
    ensures k == 2 ==> p == U16
    ensures k == 4 ==> p == U32
    ensures k == 8 ==> p == U64
  {
    if k == 0 then 1
    else if k == 2 then U16
    else if k == 4 then U32
    else if k == 8 then U64
    else 256 * Pow256(k - 1)
  }

  lemma Pow256Step(k: nat)
    requires 0 < k <= 8
    ensures Pow256(k) == 256 * Pow256(k - 1)
  {
    assert Pow256(0) == 1 && Pow256(1) == 256 && Pow256(3) == 0x100_0000;
    assert Pow256(5) == 0x100_0000_0000 && Pow256(6) == 0x1_0000_0000_0000 && Pow256(7) == 0x100_0000_0000_0000;
  }

  /** The low `k` bytes of `n`, least significant first. */
  function LE(n: nat, k: nat): (b: Bytes)
    ensures |b| == k
  {
    if k == 0 then [] else [n % 256] + LE(n / 256, k - 1)
  }

  function FromLE(b: Bytes): (n: nat) {
    if b == [] then 0 else b[0] + 256 * FromLE(b[1..])
  }

  lemma {:induction false} FromLEofLE(n: nat, k: nat)
    requires k <= 8 && n < Pow256(k)
    ensures FromLE(LE(n, k)) == n
  {
    if k > 0 {
      Pow256Step(k);
      FromLEofLE(n / 256, k - 1);
      assert LE(n, k)[1..] == LE(n / 256, k - 1);
    } else {
      assert Pow256(0) == 1;
    }
  }

  /** A read of a fixed number of bytes: at the end of the stream it is io.EOF, in the middle io.ErrUnexpectedEOF. */
  datatype Read<T> = Got(value: T, rest: Bytes) | Eof | Short

  function ReadFull(b: Bytes, n: nat): (r: Read<Bytes>)
    ensures r.Got? ==> |r.value| == n && b == r.value + r.rest
  {
    if n == 0 then Got([], b)
    else if b == [] then Eof
    else if |b| < n then Short
    else Got(b[..n], b[n..])
  }

  function ReadUint(b: Bytes, k: nat): (r: Read<nat>)
    ensures r.Got? ==> |r.rest| + k == |b|
  {
    match ReadFull(b, k)
    case Got(x, rest) => Got(FromLE(x), rest)
    case Eof => Eof
    case Short => Short
  }

  lemma ReadBack(a: Bytes, rest: Bytes)
    ensures ReadFull(a + rest, |a|) == Got(a, rest)
  {
    assert (a + rest)[..|a|] == a && (a + rest)[|a|..] == rest;
    if a == [] { assert a + rest == rest; }
  }

  lemma ReadUintBack(n: nat, k: nat, rest: Bytes)
    requires k <= 8 && n < Pow256(k)
    ensures ReadUint(LE(n, k) + rest, k) == Got(n, rest)
  {
    ReadBack(LE(n, k), rest);
    FromLEofLE(n, k);
  }

  /** Reading `a` from the first `c` bytes of `a` followed by `rest`. */
  lemma ReadCut(a: Bytes, rest: Bytes, c: nat)
    requires c <= |a| + |rest|
    ensures c >= |a| ==> (a + rest)[..c] == a + rest[..c - |a|]
    ensures c >= |a| ==> ReadFull((a + rest)[..c], |a|) == Got(a, rest[..c - |a|])
    ensures c < |a| ==> ReadFull((a + rest)[..c], |a|) == if c == 0 then Eof else Short
  {
    if c >= |a| {
      assert (a + rest)[..c] == a + rest[..c - |a|];
      ReadBack(a, rest[..c - |a|]);
    }
  }

  lemma ReadUintCut(n: nat, k: nat, rest: Bytes, c: nat)
    requires k <= 8 && n < Pow256(k) && c <= k + |rest|
    ensures c >= k ==> ReadUint((LE(n, k) + rest)[..c], k) == Got(n, rest[..c - k])
    ensures c < k ==> ReadUint((LE(n, k) + rest)[..c], k) == if c == 0 then Eof else Short
  {
    ReadCut(LE(n, k), rest, c);
    FromLEofLE(n, k);
  }

  lemma DivDiv(n: nat, p: nat)
    requires p > 0
    ensures (n / 256) / p == n / (256 * p)
  {
    var a, r := n / 256, n % 256;
    var q, t := a / p, a % p;
    assert n == 256 * (q * p + t) + r == (256 * p) * q + (256 * t + r);
    assert 256 * t + r < 256 * p;
    DivIs(n, 256 * p, q, 256 * t + r);
  }

  lemma DivIs(n: nat, d: nat, q: nat, r: nat)
    requires d > 0 && r < d && n == d * q + r
    ensures n / d == q
  {
    SmallMultiple(d, n / d - q);
  }

  lemma SmallMultiple(d: int, x: int)
    requires -d < d * x < d
    ensures x == 0
  {
  }

  /** Byte `i` of a number is its digit for 256 to the power of `i`. */
  lemma {:induction false} LEByte(n: nat, k: nat, i: nat)
    requires i < k <= 8
    ensures LE(n, k)[i] == n / Pow256(i) % 256
  {
    if i == 0 {
      assert Pow256(0) == 1;
    } else {
      LEByte(n / 256, k - 1, i - 1);
      Pow256Step(i);
      DivDiv(n, Pow256(i - 1));
    }
  }

  /** `field` stands in `e` from `from` on. */
  predicate At(e: Bytes, from: nat, field: Bytes) {
    from + |field| <= |e| && forall i :: 0 <= i < |field| ==> e[from + i] == field[i]
  }

  /** From `from` on `e` is `rest`. */
  predicate Ends(e: Bytes, from: nat, rest: Bytes) {
    from + |rest| == |e| && At(e, from, rest)
  }

  lemma TakeField(e: Bytes, from: nat, field: Bytes, rest: Bytes)
    requires Ends(e, from, field + rest)
    ensures At(e, from, field) && Ends(e, from + |field|, rest)
  {
    var both := field + rest;
    forall i | 0 <= i < |field| ensures e[from + i] == field[i] { assert both[i] == field[i]; }
    forall i | 0 <= i < |rest| ensures e[from + |field| + i] == rest[i] { assert both[|field| + i] == rest[i]; }
  }

  lemma Whole(e: Bytes)
    ensures Ends(e, 0, e)
  {
  }
}
