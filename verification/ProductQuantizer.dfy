/**
 The product quantizer of pkg/quantization/pq.go, over real numbers.

 Training takes the first `k` vectors as they are: in every subspace centroid `j` is the slice of
 vector `j`.  A code is one byte per subspace, so a centroid index above 255 is cut to its low
 eight bits, and the search for the nearest centroid starts at the largest 32-bit float.
 */
module ProductQuantizer {
  import opened Wrappers

  type Vector = seq<real>

  /** The centroids of one subspace. */
  type Book = seq<Vector>

  type Code = seq<nat>

  const MAX_FLOAT := 340282346638528859811704183484516925440.0

  // ---------- squared distance ----------

  function Product(a: real, b: real): real { a * b }

  function Square(x: real): (r: real)
    ensures r >= 0.0
  {
    Product(x, x)
  }

  function Sq(a: Vector, b: Vector): (r: real)
    requires |a| == |b|
    ensures r >= 0.0
  {
    if a == [] then 0.0 else Sq(a[..|a| - 1], b[..|b| - 1]) + Square(a[|a| - 1] - b[|b| - 1])
  }

  lemma {:induction false} SqConcat(a: Vector, b: Vector, c: Vector, d: Vector)
    requires |a| == |b| && |c| == |d|
    ensures Sq(a + c, b + d) == Sq(a, b) + Sq(c, d)
  {
    if c == [] {
      assert a + c == a && b + d == b;
    } else {
      SqConcat(a, b, c[..|c| - 1], d[..|d| - 1]);
      assert (a + c)[..|a + c| - 1] == a + c[..|c| - 1];
      assert (b + d)[..|b + d| - 1] == b + d[..|d| - 1];
    }
  }

  lemma ProductPositive(a: real, b: real)
    requires a > 0.0 && b > 0.0
    ensures Product(a, b) > 0.0
  {
  }

  lemma ProductEven(a: real, b: real)
    ensures Product(-a, -b) == Product(a, b)
  {
  }

  lemma SquarePositive(x: real)
    requires x != 0.0
    ensures Square(x) > 0.0
  {
    if x > 0.0 {
      ProductPositive(x, x);
    } else {
      ProductPositive(-x, -x);
      ProductEven(x, x);
    }
  }

  lemma {:induction false} SqZero(a: Vector, b: Vector)
    requires |a| == |b|
    ensures Sq(a, b) == 0.0 <==> a == b
  {
    if a != [] {
      var n := |a| - 1;
      SqZero(a[..n], b[..n]);
      assert a == a[..n] + [a[n]] && b == b[..n] + [b[n]];
      if a[n] != b[n] {
        SquarePositive(a[n] - b[n]);
      }
    }
  }

  /** The sum of the products, coordinate by coordinate. */
  function Dot(a: Vector, b: Vector): real
    requires |a| == |b|
  {
    if a == [] then 0.0 else Dot(a[..|a| - 1], b[..|b| - 1]) + a[|a| - 1] * b[|b| - 1]
  }

  lemma SquareExpands(x: real, y: real)
    ensures Square(x - y) == x * x - 2.0 * (x * y) + y * y
  {
  }

  /** The squared distance is what the dot products make of it: |a|^2 - 2ab + |b|^2. */
  lemma {:induction false} SqExpands(a: Vector, b: Vector)
    requires |a| == |b|
    ensures Sq(a, b) == Dot(a, a) - 2.0 * Dot(a, b) + Dot(b, b)
  {
    if a != [] {
      SqExpands(a[..|a| - 1], b[..|b| - 1]);
      SquareExpands(a[|a| - 1], b[|b| - 1]);
    }
  }

  method SquaredDistance(a: Vector, b: Vector) returns (dist: real)
    requires |a| == |b|
    ensures dist == Sq(a, b)
  {
    dist := 0.0;
    for k := 0 to |a|
      invariant dist == Sq(a[..k], b[..k])
    {
      var diff := a[k] - b[k];
      dist := dist + Square(diff);
      assert a[..k + 1][..k] == a[..k] && b[..k + 1][..k] == b[..k];
    }
    assert a[..|a|] == a && b[..|b|] == b;
  }

  // ---------- the nearest centroid ----------

  /** Every centroid is as long as the vectors of the subspace. */
  predicate Fits(book: Book, d: nat) {
    forall j :: 0 <= j < |book| ==> |book[j]| == d
  }

  /** The index and the distance the search holds after the first `n` centroids. */
  function Scan(book: Book, x: Vector, n: nat): (nat, real)
    requires n <= |book| && Fits(book, |x|)
  {
    if n == 0 then (0, MAX_FLOAT)
    else
      var best := Scan(book, x, n - 1);
      if Sq(x, book[n - 1]) < best.1 then (n - 1, Sq(x, book[n - 1])) else best
  }

  ghost predicate Nearest(book: Book, x: Vector, b: nat)
    requires Fits(book, |x|)
  {
    b < |book| && forall j :: 0 <= j < |book| ==> Sq(x, book[b]) <= Sq(x, book[j])
  }

  /** Some centroid is nearer than the starting value of the search, or the first one is nearest anyway. */
  ghost predicate InReach(book: Book, x: Vector)
    requires Fits(book, |x|)
  {
    (exists j :: 0 <= j < |book| && Sq(x, book[j]) < MAX_FLOAT) || Nearest(book, x, 0)
  }

  lemma {:induction false} ScanLeast(book: Book, x: Vector, n: nat)
    requires n <= |book| && Fits(book, |x|)
    ensures var s := Scan(book, x, n);
            s.1 <= MAX_FLOAT
            && (forall j :: 0 <= j < n ==> s.1 <= Sq(x, book[j]))
            && (if s.1 < MAX_FLOAT then s.0 < n && Sq(x, book[s.0]) == s.1 else s.0 == 0)
  {
    if n > 0 {
      ScanLeast(book, x, n - 1);
    }
  }

  /** The search ends on a nearest centroid exactly when one is in reach. */
  lemma ScanNearest(book: Book, x: Vector)
    requires Fits(book, |x|)
    ensures Nearest(book, x, Scan(book, x, |book|).0) <==> InReach(book, x)
  {
    ScanLeast(book, x, |book|);
  }

  method NearestCentroid(book: Book, x: Vector) returns (bestIdx: nat)
    requires Fits(book, |x|)
    ensures bestIdx == Scan(book, x, |book|).0
    ensures bestIdx < |book| || bestIdx == 0
  {
    var bestDist := MAX_FLOAT;
    bestIdx := 0;
    for j := 0 to |book|
      invariant (bestIdx, bestDist) == Scan(book, x, j)
      invariant bestIdx < j || bestIdx == 0
    {
      var dist := SquaredDistance(x, book[j]);
      if dist < bestDist {
        bestDist := dist;
        bestIdx := j;
      }
    }
  }

  // ---------- subspaces ----------

  lemma NextPiece(i: nat, d: nat)
    ensures (i + 1) * d == i * d + d && i * d >= 0
  {
  }

  lemma PieceInside(i: nat, m: nat, d: nat)
    requires i < m
    ensures i * d + d <= m * d
  {
    NextPiece(i, d);
    var rest := m - (i + 1);
    assert m * d == (i + 1) * d + rest * d;
  }

  /** A vector cut into `m` pieces of length `d`; what is left over is ignored. */
  function Pieces(v: Vector, m: nat, d: nat): (ps: seq<Vector>)
    requires m * d <= |v|
    ensures |ps| == m && Fits(ps, d)
  {
    if m == 0 then []
    else
      NextPiece(m - 1, d);
      Pieces(v, m - 1, d) + [v[(m - 1) * d..(m - 1) * d + d]]
  }

  lemma {:induction false} PieceAt(v: Vector, m: nat, d: nat, i: nat)
    requires m * d <= |v| && i < m
    ensures i * d + d <= |v| && i * d >= 0 && Pieces(v, m, d)[i] == v[i * d..i * d + d]
  {
    PieceInside(i, m, d);
    NextPiece(i, d);
    NextPiece(m - 1, d);
    if i < m - 1 {
      PieceAt(v, m - 1, d, i);
    }
  }

  function Flat(ps: seq<Vector>): Vector {
    if ps == [] then [] else Flat(ps[..|ps| - 1]) + ps[|ps| - 1]
  }

  lemma {:induction false} FlatPieces(v: Vector, m: nat, d: nat)
    requires m * d <= |v|
    ensures Flat(Pieces(v, m, d)) == v[..m * d]
  {
    if m > 0 {
      NextPiece(m - 1, d);
      FlatPieces(v, m - 1, d);
      var ps := Pieces(v, m - 1, d);
      assert Pieces(v, m, d)[..m - 1] == ps;
    }
  }

  lemma {:induction false} FlatDistance(a: seq<Vector>, b: seq<Vector>, d: nat)
    requires |a| == |b| && Fits(a, d) && Fits(b, d)
    ensures |Flat(a)| == |Flat(b)| && Sq(Flat(a), Flat(b)) == SumSq(a, b, d)
  {
    if a != [] {
      var n := |a| - 1;
      FlatDistance(a[..n], b[..n], d);
      SqConcat(Flat(a[..n]), Flat(b[..n]), a[n], b[n]);
    }
  }

  /** The squared distances of the pieces, added up. */
  function SumSq(a: seq<Vector>, b: seq<Vector>, d: nat): real
    requires |a| == |b| && Fits(a, d) && Fits(b, d)
  {
    if a == [] then 0.0 else SumSq(a[..|a| - 1], b[..|b| - 1], d) + Sq(a[|a| - 1], b[|b| - 1])
  }

  lemma {:induction false} SumSqLeast(a: seq<Vector>, b: seq<Vector>, c: seq<Vector>, d: nat)
    requires |a| == |b| == |c| && Fits(a, d) && Fits(b, d) && Fits(c, d)
    requires forall i :: 0 <= i < |a| ==> Sq(a[i], b[i]) <= Sq(a[i], c[i])
    ensures SumSq(a, b, d) <= SumSq(a, c, d)
  {
    if a != [] {
      var n := |a| - 1;
      SumSqLeast(a[..n], b[..n], c[..n], d);
    }
  }

  lemma {:induction false} SumSqUpdate(a: seq<Vector>, b: seq<Vector>, d: nat, i: nat, x: Vector)
    requires |a| == |b| && Fits(a, d) && Fits(b, d) && i < |a| && |x| == d
    ensures SumSq(a, b[i := x], d) == SumSq(a, b, d) - Sq(a[i], b[i]) + Sq(a[i], x)
  {
    var n := |a| - 1;
    if i < n {
      SumSqUpdate(a[..n], b[..n], d, i, x);
      assert b[i := x][..n] == b[..n][i := x];
    } else {
      assert b[i := x][..n] == b[..n];
    }
  }

  // ---------- codes ----------

  ghost predicate Trained(books: seq<Book>, k: nat, d: nat) {
    forall i :: 0 <= i < |books| ==> |books[i]| == k && Fits(books[i], d)
  }

  /** A code that names a centroid in every subspace. */
  predicate Codeword(code: Code, m: nat, k: nat) {
    |code| == m && forall i :: 0 <= i < m ==> code[i] < k
  }

  /** The centroids a code names. */
  function Chosen(books: seq<Book>, code: Code, k: nat, ghost d: nat): (cs: seq<Vector>)
    requires Trained(books, k, d) && Codeword(code, |books|, k)
    ensures |cs| == |books| && Fits(cs, d) && forall i :: 0 <= i < |cs| ==> cs[i] == books[i][code[i]]
  {
    seq(|books|, i requires 0 <= i < |books| && code[i] < |books[i]| => books[i][code[i]])
  }

  function Encoded(books: seq<Book>, ps: seq<Vector>, ghost d: nat): (code: Code)
    requires |books| == |ps| && Fits(ps, d) && forall i :: 0 <= i < |books| ==> Fits(books[i], d)
    ensures |code| == |books|
  {
    seq(|books|, i requires 0 <= i < |books| && Fits(books[i], |ps[i]|) => Scan(books[i], ps[i], |books[i]|).0 % 256)
  }

  lemma EncodedIsCodeword(books: seq<Book>, ps: seq<Vector>, k: nat, d: nat)
    requires 1 <= k && |books| == |ps| && Fits(ps, d) && Trained(books, k, d)
    ensures Codeword(Encoded(books, ps, d), |books|, k)
    ensures k <= 256 ==> forall i :: 0 <= i < |books| ==> Encoded(books, ps, d)[i] == Scan(books[i], ps[i], k).0
  {
    forall i | 0 <= i < |books| ensures Scan(books[i], ps[i], k).0 < k {
      ScanLeast(books[i], ps[i], k);
    }
  }

  /** The squared distance from a vector, in pieces, to the vector a code stands for. */
  ghost function Distant(books: seq<Book>, ps: seq<Vector>, k: nat, d: nat, code: Code): (r: real)
    requires |books| == |ps| && Fits(ps, d) && Trained(books, k, d) && Codeword(code, |books|, k)
    ensures r == SumSq(ps, Chosen(books, code, k, d), d)
  {
    FlatDistance(ps, Chosen(books, code, k, d), d);
    Sq(Flat(ps), Flat(Chosen(books, code, k, d)))
  }

  /** No codeword, of all there are, stands for a vector nearer to the given pieces. */
  ghost predicate NearestOfAll(books: seq<Book>, ps: seq<Vector>, k: nat, d: nat, code: Code)
    requires |books| == |ps| && Fits(ps, d) && Trained(books, k, d) && Codeword(code, |books|, k)
  {
    forall other :: Codeword(other, |books|, k) ==>
      Distant(books, ps, k, d, code) <= Distant(books, ps, k, d, other)
  }

  lemma BestPerPiece(books: seq<Book>, ps: seq<Vector>, k: nat, d: nat, code: Code)
    requires |books| == |ps| && Fits(ps, d) && Trained(books, k, d) && Codeword(code, |books|, k)
    requires forall i :: 0 <= i < |books| ==> Nearest(books[i], ps[i], code[i])
    ensures NearestOfAll(books, ps, k, d, code)
  {
    forall other | Codeword(other, |books|, k)
      ensures Distant(books, ps, k, d, code) <= Distant(books, ps, k, d, other)
    {
      SumSqLeast(ps, Chosen(books, code, k, d), Chosen(books, other, k, d), d);
    }
  }

  lemma WorsePiece(books: seq<Book>, ps: seq<Vector>, k: nat, d: nat, code: Code, i: nat)
    requires |books| == |ps| && Fits(ps, d) && Trained(books, k, d) && Codeword(code, |books|, k)
    requires i < |books| && !Nearest(books[i], ps[i], code[i])
    ensures !NearestOfAll(books, ps, k, d, code)
  {
    var j :| 0 <= j < k && Sq(ps[i], books[i][j]) < Sq(ps[i], books[i][code[i]]);
    var other := code[i := j];
    assert Codeword(other, |books|, k);
    assert Chosen(books, other, k, d) == Chosen(books, code, k, d)[i := books[i][j]];
    SumSqUpdate(ps, Chosen(books, code, k, d), d, i, books[i][j]);
    assert Distant(books, ps, k, d, other) < Distant(books, ps, k, d, code);
  }

  /**
   With at most 256 centroids, the code of a vector is a nearest one among all `k^m` codewords
   exactly when in every subspace some centroid is in reach of the search.
   */
  lemma EncodedNearestExactly(books: seq<Book>, ps: seq<Vector>, k: nat, d: nat)
    requires 1 <= k <= 256 && |books| == |ps| && Fits(ps, d) && Trained(books, k, d)
    ensures Codeword(Encoded(books, ps, d), |books|, k)
    ensures NearestOfAll(books, ps, k, d, Encoded(books, ps, d))
       <==> forall i :: 0 <= i < |books| ==> InReach(books[i], ps[i])
  {
    EncodedIsCodeword(books, ps, k, d);
    var code := Encoded(books, ps, d);
    forall i | 0 <= i < |books| ensures Nearest(books[i], ps[i], code[i]) <==> InReach(books[i], ps[i]) {
      ScanNearest(books[i], ps[i]);
    }
    if i :| 0 <= i < |books| && !InReach(books[i], ps[i]) {
      WorsePiece(books, ps, k, d, code, i);
    } else {
      BestPerPiece(books, ps, k, d, code);
    }
  }

  // ---------- training ----------

  /** The first `k` vectors are long enough to train on. */
  ghost predicate Trainable(vectors: seq<Vector>, m: nat, d: nat, k: nat) {
    k <= |vectors| && forall j :: 0 <= j < k ==> m * d <= |vectors[j]|
  }

  /** In every subspace, centroid `j` is the piece of vector `j`. */
  ghost predicate TrainedOn(books: seq<Book>, vectors: seq<Vector>, m: nat, d: nat, k: nat)
    requires Trainable(vectors, m, d, k)
  {
    && |books| == m && Trained(books, k, d)
    && forall i, j :: 0 <= i < m && 0 <= j < k ==> books[i][j] == Pieces(vectors[j], m, d)[i]
  }

  /** Encoding vector `t` of the training set and decoding it again gives it back. */
  ghost predicate Restored(books: seq<Book>, vectors: seq<Vector>, m: nat, d: nat, k: nat, t: nat)
    requires Trainable(vectors, m, d, k) && TrainedOn(books, vectors, m, d, k) && t < k
  {
    var ps := Pieces(vectors[t], m, d);
    EncodedIsCodeword(books, ps, k, d);
    Flat(Chosen(books, Encoded(books, ps, d), k, d)) == vectors[t][..m * d]
  }

  lemma ExactPiece(book: Book, x: Vector, t: nat)
    requires Fits(book, |x|) && t < |book| && book[t] == x
    ensures Scan(book, x, |book|).0 < |book| && book[Scan(book, x, |book|).0] == x
  {
    SqZero(x, x);
    ScanLeast(book, x, |book|);
    var b := Scan(book, x, |book|).0;
    SqZero(x, book[b]);
  }

  lemma TrainingRestored(books: seq<Book>, vectors: seq<Vector>, m: nat, d: nat, k: nat, t: nat)
    requires Trainable(vectors, m, d, k) && TrainedOn(books, vectors, m, d, k) && t < k <= 256
    ensures Restored(books, vectors, m, d, k, t)
  {
    var ps := Pieces(vectors[t], m, d);
    EncodedIsCodeword(books, ps, k, d);
    var cs := Chosen(books, Encoded(books, ps, d), k, d);
    forall i | 0 <= i < m ensures cs[i] == ps[i] {
      ExactPiece(books[i], ps[i], t);
    }
    assert cs == ps;
    FlatPieces(vectors[t], m, d);
  }

  /** Every training vector comes back, for all training sets. */
  ghost predicate AlwaysRestores(k: nat) {
    forall books, vectors, m, d, t |
      Trainable(vectors, m, d, k) && TrainedOn(books, vectors, m, d, k) && 0 <= t < k ::
      Restored(books, vectors, m, d, k, t)
  }

  function Ramp(k: nat): (vs: seq<Vector>)
    ensures |vs| == k && forall j :: 0 <= j < k ==> vs[j] == [j as real]
  {
    seq(k, j => [j as real])
  }

  /** Centroid 256 is written as byte 0. */
  lemma TruncatedByte(k: nat)
    requires k > 256
    ensures !AlwaysRestores(k)
  {
    var vectors := Ramp(k);
    var books := [vectors];
    forall j | 0 <= j < k ensures Pieces(vectors[j], 1, 1) == [vectors[j]] {
      assert Pieces(vectors[j], 0, 1) == [];
      assert vectors[j][0..1] == vectors[j];
    }
    assert TrainedOn(books, vectors, 1, 1, k);
    var ps := Pieces(vectors[256], 1, 1);
    ExactPiece(vectors, vectors[256], 256);
    EncodedIsCodeword(books, ps, k, 1);
    assert Encoded(books, ps, 1)[0] == 0;
    var cs := Chosen(books, Encoded(books, ps, 1), k, 1);
    assert cs[0] == [0.0];
    assert Flat(cs) == [0.0] by {
      assert cs[..0] == [];
      assert Flat(cs[..0]) == [];
    }
    assert vectors[256][..1][0] == 256.0;
    assert !Restored(books, vectors, 1, 1, k, 256);
  }

  /** Training vectors come back unchanged exactly when an index fits into a byte. */
  lemma RestoresExactly(k: nat)
    ensures AlwaysRestores(k) <==> k <= 256
  {
    if k <= 256 {
      forall books, vectors, m, d, t |
        Trainable(vectors, m, d, k) && TrainedOn(books, vectors, m, d, k) && 0 <= t < k
        ensures Restored(books, vectors, m, d, k, t)
      {
        TrainingRestored(books, vectors, m, d, k, t);
      }
    } else {
      TruncatedByte(k);
    }
  }

  // ---------- the quantizer ----------

  method NewProductQuantizer(dimension: nat, m: nat, k: nat) returns (r: Option<Quantizer>)
    requires m > 0
    ensures r.None? <==> dimension % m != 0
    ensures r.Some? ==> fresh(r.value) && r.value.Valid() && !r.value.trained
    ensures r.Some? ==> r.value.dimension == dimension && r.value.m == m && r.value.k == k
  {
    if dimension % m != 0 {
      return None;
    }
    var q := new Quantizer(dimension, m, k);
    return Some(q);
  }

  class Quantizer {
    const dimension: nat
    const m: nat
    const k: nat
    var codebooks: seq<Book>
    var trained: bool

    ghost predicate Valid()
      reads this
    {
      && m > 0 && dimension % m == 0
      && (trained ==> |codebooks| == m && Trained(codebooks, k, SubDim()))
    }

    function SubDim(): nat
      requires m > 0
    {
      dimension / m
    }

    lemma Whole()
      requires Valid()
      ensures m * SubDim() == dimension
    {
    }

    constructor (dimension: nat, m: nat, k: nat)
      requires m > 0 && dimension % m == 0
      ensures Valid() && !trained && this.dimension == dimension && this.m == m && this.k == k
    {
      this.dimension, this.m, this.k := dimension, m, k;
      codebooks, trained := [], false;
    }

    method Train(vectors: seq<Vector>) returns (r: Result<(), string>)
      requires Valid()
      requires k <= |vectors| ==> Trainable(vectors, m, SubDim(), k)
      modifies this
      ensures Valid()
      ensures r.Failure? <==> |vectors| < k
      ensures r.Failure? ==> trained == old(trained) && codebooks == old(codebooks)
      ensures r.Success? ==> trained && TrainedOn(codebooks, vectors, m, SubDim(), k)
    {
      if |vectors| < k {
        return Failure("not enough vectors to train PQ centroids");
      }
      var books := [];
      for i := 0 to m
        invariant |books| == i
        invariant forall a :: 0 <= a < i ==> |books[a]| == k && Fits(books[a], SubDim())
        invariant forall a, j :: 0 <= a < i && 0 <= j < k ==> books[a][j] == Pieces(vectors[j], m, SubDim())[a]
      {
        var book := CutBook(vectors, m, SubDim(), k, i);
        books := books + [book];
      }
      codebooks := books;
      trained := true;
      return Success(());
    }

    method Encode(vector: Vector) returns (r: Result<Code, string>)
      requires Valid() && (trained ==> m * SubDim() <= |vector|)
      ensures r.Failure? <==> !trained
      ensures trained ==> r == Success(Encoded(codebooks, Pieces(vector, m, SubDim()), SubDim()))
    {
      if !trained {
        return Failure("quantizer not trained");
      }
      ghost var ps := Pieces(vector, m, SubDim());
      var encoded := [];
      for i := 0 to m
        invariant |encoded| == i
        invariant forall a :: 0 <= a < i ==> encoded[a] == Encoded(codebooks, ps, SubDim())[a]
      {
        PieceAt(vector, m, SubDim(), i);
        var bestIdx := NearestCentroid(codebooks[i], vector[i * SubDim()..i * SubDim() + SubDim()]);
        encoded := encoded + [bestIdx % 256];
      }
      assert encoded == Encoded(codebooks, ps, SubDim());
      return Success(encoded);
    }

    method Decode(data: Code) returns (r: Result<Vector, string>)
      requires Valid() && (|data| == m ==> trained && Codeword(data, m, k))
      ensures r.Failure? <==> |data| != m
      ensures |data| == m ==> r == Success(Flat(Chosen(codebooks, data, k, SubDim())))
    {
      if |data| != m {
        return Failure("invalid encoded data length");
      }
      ghost var cs := Chosen(codebooks, data, k, SubDim());
      var vector := [];
      for i := 0 to m
        invariant vector == Flat(cs[..i])
      {
        vector := vector + codebooks[i][data[i]];
        assert cs[..i + 1][..i] == cs[..i];
      }
      assert cs[..m] == cs;
      return Success(vector);
    }

    /** `d` is the squared distance from the query to the vector that the code decodes to. */
    ghost predicate IsDistance(query: Vector, code: Code, d: real)
      requires Valid() && trained && dimension <= |query| && Codeword(code, m, k)
      reads this
    {
      var decoded := Flat(Chosen(codebooks, code, k, SubDim()));
      |decoded| == dimension && d == Sq(query[..dimension], decoded)
    }

    lemma SummedUp(query: Vector, code: Code, d: real)
      requires Valid() && trained && dimension <= |query| && Codeword(code, m, k) && m * SubDim() == dimension
      requires d == SumSq(Pieces(query, m, SubDim()), Chosen(codebooks, code, k, SubDim()), SubDim())
      ensures IsDistance(query, code, d)
    {
      FlatDistance(Pieces(query, m, SubDim()), Chosen(codebooks, code, k, SubDim()), SubDim());
      FlatPieces(query, m, SubDim());
    }

    /** The squared distance from the query to the vector the code stands for. */
    method Distance(query: Vector, quantized: Code) returns (total: real)
      requires Valid() && trained && dimension <= |query| && Codeword(quantized, m, k)
      ensures IsDistance(query, quantized, total)
    {
      Whole();
      ghost var ps, cs := Pieces(query, m, SubDim()), Chosen(codebooks, quantized, k, SubDim());
      total := 0.0;
      for i := 0 to m
        invariant total == SumSq(ps[..i], cs[..i], SubDim())
      {
        PieceAt(query, m, SubDim(), i);
        var dist := SquaredDistance(query[i * SubDim()..i * SubDim() + SubDim()], codebooks[i][quantized[i]]);
        total := total + dist;
        assert ps[..i + 1][..i] == ps[..i] && cs[..i + 1][..i] == cs[..i];
      }
      assert ps[..m] == ps && cs[..m] == cs;
      SummedUp(query, quantized, total);
    }

    /** One table of distances serves every code. */
    method BatchDistance(query: Vector, quantized: seq<Code>) returns (distances: seq<real>)
      requires Valid() && trained && dimension <= |query|
      requires forall i :: 0 <= i < |quantized| ==> Codeword(quantized[i], m, k)
      ensures |distances| == |quantized|
      ensures forall i :: 0 <= i < |quantized| ==> IsDistance(query, quantized[i], distances[i])
    {
      Whole();
      var table := Table(query);
      distances := [];
      for i := 0 to |quantized|
        invariant |distances| == i
        invariant forall a :: 0 <= a < i ==> IsDistance(query, quantized[a], distances[a])
      {
        var dist := LookUp(table, quantized[i], Pieces(query, m, SubDim()));
        SummedUp(query, quantized[i], dist);
        distances := distances + [dist];
      }
    }

    ghost predicate IsTable(table: seq<seq<real>>, ps: seq<Vector>)
      requires Valid() && trained
      reads this
    {
      && |table| == |ps| == m && Fits(ps, SubDim())
      && (forall i :: 0 <= i < m ==> |table[i]| == k)
      && forall i, j :: 0 <= i < m && 0 <= j < k ==> table[i][j] == Sq(ps[i], codebooks[i][j])
    }

    method Table(query: Vector) returns (table: seq<seq<real>>)
      requires Valid() && trained && m * SubDim() <= |query|
      ensures IsTable(table, Pieces(query, m, SubDim()))
    {
      ghost var ps := Pieces(query, m, SubDim());
      table := [];
      for i := 0 to m
        invariant |table| == i
        invariant forall a :: 0 <= a < i ==> |table[a]| == k
        invariant forall a, j :: 0 <= a < i && 0 <= j < k ==> table[a][j] == Sq(ps[a], codebooks[a][j])
      {
        PieceAt(query, m, SubDim(), i);
        var row := Row(query[i * SubDim()..i * SubDim() + SubDim()], codebooks[i]);
        table := table + [row];
      }
    }

    method LookUp(table: seq<seq<real>>, code: Code, ghost ps: seq<Vector>) returns (dist: real)
      requires Valid() && trained && Codeword(code, m, k) && IsTable(table, ps)
      ensures dist == SumSq(ps, Chosen(codebooks, code, k, SubDim()), SubDim())
    {
      ghost var cs := Chosen(codebooks, code, k, SubDim());
      dist := 0.0;
      for j := 0 to m
        invariant dist == SumSq(ps[..j], cs[..j], SubDim())
      {
        dist := dist + table[j][code[j]];
        assert ps[..j + 1][..j] == ps[..j] && cs[..j + 1][..j] == cs[..j];
      }
      assert ps[..m] == ps && cs[..m] == cs;
    }
  }

  method Row(x: Vector, book: Book) returns (row: seq<real>)
    requires Fits(book, |x|)
    ensures |row| == |book| && forall j :: 0 <= j < |book| ==> row[j] == Sq(x, book[j])
  {
    row := [];
    for j := 0 to |book|
      invariant |row| == j && forall a :: 0 <= a < j ==> row[a] == Sq(x, book[a])
    {
      var dist := SquaredDistance(x, book[j]);
      row := row + [dist];
    }
  }

  method CutBook(vectors: seq<Vector>, m: nat, d: nat, k: nat, i: nat) returns (book: Book)
    requires Trainable(vectors, m, d, k) && i < m
    ensures |book| == k && Fits(book, d)
    ensures forall j :: 0 <= j < k ==> book[j] == Pieces(vectors[j], m, d)[i]
  {
    book := [];
    for j := 0 to k
      invariant |book| == j && Fits(book, d) && forall a :: 0 <= a < j ==> book[a] == Pieces(vectors[a], m, d)[i]
    {
      PieceAt(vectors[j], m, d, i);
      book := book + [vectors[j][i * d..i * d + d]];
    }
  }
}
