/**
 The scalar quantizer of pkg/quantization/quantization.go, over real numbers.

 Training sorts the values of each dimension and keeps two of them, chosen by the quantile, as the
 range that is mapped to one byte.
 */
module ScalarQuantizer {
  import opened Wrappers

  type Vector = seq<real>

  // ---------- sorting ----------

  predicate Sorted(s: seq<real>) {
    forall i, j :: 0 <= i < j < |s| ==> s[i] <= s[j]
  }

  /** The list with the element at `i` moved down to `p`. */
  function MovedDown(s: seq<real>, p: nat, i: nat): seq<real>
    requires p <= i < |s|
  {
    s[..p] + [s[i]] + s[p..i] + s[i + 1..]
  }

  /** The list while the elements from `p` up to `i` have been copied one place up. */
  function Shifted(s: seq<real>, p: nat, i: nat): (t: seq<real>)
    requires p <= i < |s|
    ensures |t| == |s| && (p > 0 ==> t[p - 1] == s[p - 1])
  {
    s[..p + 1] + s[p..i] + s[i + 1..]
  }

  lemma ShiftMore(s: seq<real>, p: nat, i: nat)
    requires 0 < p <= i < |s|
    ensures Shifted(s, p, i)[p := s[p - 1]] == Shifted(s, p - 1, i)
  {
  }

  lemma ShiftDone(s: seq<real>, p: nat, i: nat)
    requires p <= i < |s|
    ensures Shifted(s, p, i)[p := s[i]] == MovedDown(s, p, i)
  {
  }

  lemma MovedDownSame(s: seq<real>, p: nat, i: nat)
    requires p <= i < |s|
    ensures multiset(MovedDown(s, p, i)) == multiset(s)
  {
    assert s == s[..p] + s[p..i] + [s[i]] + s[i + 1..];
  }

  /** Everything from `p` up to `i` is larger than the element at `i`. */
  predicate Above(s: seq<real>, p: nat, i: nat)
    requires p <= i < |s|
  {
    forall x :: p <= x < i ==> s[i] < s[x]
  }

  lemma MovedDownSorted(s: seq<real>, p: nat, i: nat)
    requires p <= i < |s| && Sorted(s[..i])
    requires Above(s, p, i)
    requires p > 0 ==> s[p - 1] <= s[i]
    ensures Sorted(MovedDown(s, p, i)[..i + 1])
  {
    var r := MovedDown(s, p, i)[..i + 1];
    assert forall x :: 0 <= x < i + 1 ==> r[x] == if x < p then s[x] else if x == p then s[i] else s[x - 1];
    assert forall x, y :: 0 <= x < y < i ==> s[..i][x] == s[x] && s[x] <= s[y];
  }

  /** Insertion sort, in place. */
  method SortFloat32s(a: array<real>)
    modifies a
    ensures Sorted(a[..]) && multiset(a[..]) == multiset(old(a[..]))
  {
    var i := 1;
    while i < a.Length
      invariant 1 <= i
      invariant i <= a.Length ==> Sorted(a[..i])
      invariant a.Length == 0 || i <= a.Length
      invariant multiset(a[..]) == multiset(old(a[..]))
    {
      InsertAt(a, i);
      i := i + 1;
    }
    assert a.Length > 0 ==> a[..i] == a[..];
  }

  /** Move the element at `i` down to its place among the sorted ones before it. */
  method InsertAt(a: array<real>, i: nat)
    requires i < a.Length && Sorted(a[..i])
    modifies a
    ensures Sorted(a[..i + 1]) && multiset(a[..]) == multiset(old(a[..]))
  {
    ghost var s := a[..];
    var p := MoveDown(a, i);
    MovedDownSame(s, p, i);
    MovedDownSorted(s, p, i);
    assert a[..i + 1] == a[..][..i + 1];
  }

  method MoveDown(a: array<real>, i: nat) returns (p: nat)
    requires i < a.Length
    modifies a
    ensures p <= i && a[..] == MovedDown(old(a[..]), p, i)
    ensures Above(old(a[..]), p, i)
    ensures p > 0 ==> old(a[..])[p - 1] <= old(a[..])[i]
  {
    ghost var s := a[..];
    var key := a[i];
    p := i;
    assert a[..] == Shifted(s, i, i);
    while p > 0 && a[p - 1] > key
      invariant p <= i && a[..] == Shifted(s, p, i)
      invariant Above(s, p, i)
      decreases p
    {
      ghost var t := a[..];
      ShiftMore(s, p, i);
      a[p] := a[p - 1];
      assert a[..] == t[p := t[p - 1]];
      p := p - 1;
    }
    ghost var t := a[..];
    ShiftDone(s, p, i);
    a[p] := key;
    assert a[..] == t[p := s[i]];
  }

  // ---------- choosing the range ----------

  /** Conversion to an integer drops the fraction. */
  function Trunc(x: real): int {
    if x >= 0.0 then x.Floor else -(-x).Floor
  }

  lemma TruncMonotone(x: real, y: real)
    requires x <= y
    ensures Trunc(x) <= Trunc(y)
  {
  }

  function Times(n: nat, x: real): real { n as real * x }

  function LowIdx(n: nat, quantile: real): int {
    var i := Trunc(Times(n, 1.0 - quantile));
    if i < 0 then 0 else i
  }

  function HighIdx(n: nat, quantile: real): int {
    var i := Trunc(Times(n, quantile));
    if i >= n then n - 1 else i
  }

  /** Where the two kept values stand among `n` sorted ones: at the whole part of n(1 - q) and of nq. */
  lemma IndexBounds(n: nat, quantile: real)
    requires 0.0 <= quantile < 1.0 && n > 0
    ensures LowIdx(n, quantile) as real <= n as real * (1.0 - quantile) < LowIdx(n, quantile) as real + 1.0
    ensures HighIdx(n, quantile) as real <= n as real * quantile < HighIdx(n, quantile) as real + 1.0
  {
    TimesInside(n, quantile);
    TimesLess(n, 0.0, quantile);
    TimesLess(n, 0.0, 1.0 - quantile);
  }

  lemma TimesLess(n: nat, x: real, y: real)
    requires x <= y
    ensures Times(n, x) <= Times(n, y)
  {
  }

  lemma TimesInside(n: nat, x: real)
    requires x < 1.0 && n > 0
    ensures Times(n, x) < n as real
  {
  }

  lemma TimesNotNegative(n: nat, x: real)
    requires x >= 0.0
    ensures Times(n, x) >= 0.0
  {
  }

  lemma IndicesInRange(n: nat, quantile: real)
    requires quantile > 0.0 && n > 0
    ensures 0 <= LowIdx(n, quantile) < n && 0 <= HighIdx(n, quantile) < n
  {
    TimesInside(n, 1.0 - quantile);
    TimesNotNegative(n, quantile);
  }

  lemma IndicesOrdered(n: nat, quantile: real)
    requires quantile >= 0.5 && n > 0
    ensures LowIdx(n, quantile) <= HighIdx(n, quantile)
  {
    IndicesInRange(n, quantile);
    TimesLess(n, 1.0 - quantile, quantile);
    TimesNotNegative(n, quantile);
    TruncMonotone(Times(n, 1.0 - quantile), Times(n, quantile));
  }

  /** The two values that training keeps of one dimension. */
  ghost predicate Calibrates(values: seq<real>, quantile: real, min: real, max: real) {
    exists s: seq<real> :: Kept(values, s, quantile, min, max)
  }

  ghost predicate Kept(values: seq<real>, s: seq<real>, quantile: real, min: real, max: real) {
    && Sorted(s) && multiset(s) == multiset(values)
    && 0 <= LowIdx(|s|, quantile) < |s| && 0 <= HighIdx(|s|, quantile) < |s|
    && min == s[LowIdx(|s|, quantile)] && max == s[HighIdx(|s|, quantile)]
  }

  /** Whatever the training set, the range is not upside down. */
  ghost predicate RangesOrdered(quantile: real) {
    forall values, min, max :: Calibrates(values, quantile, min, max) ==> min <= max
  }

  lemma SameSize(a: seq<real>, b: seq<real>)
    requires multiset(a) == multiset(b)
    ensures |a| == |b|
  {
    assert |multiset(a)| == |a| && |multiset(b)| == |b|;
  }

  lemma CalibratesOrdered(values: seq<real>, quantile: real, min: real, max: real)
    requires quantile >= 0.5 && Calibrates(values, quantile, min, max)
    ensures min <= max
  {
    var s :| Kept(values, s, quantile, min, max);
    IndicesOrdered(|s|, quantile);
  }

  function Ramp(n: nat): (s: seq<real>)
    ensures |s| == n && forall i :: 0 <= i < n ==> s[i] == i as real
  {
    seq(n, i => i as real)
  }

  lemma TimesApart(n: nat, x: real, y: real)
    requires Times(n, y - x) >= 1.0
    ensures Times(n, x) + 1.0 <= Times(n, y)
  {
  }

  /** Enough training values for the two indices to cross. */
  lemma CrossingSize(gap: real) returns (n: nat)
    requires gap > 0.0
    ensures n > 0 && Times(n, gap) >= 1.0
  {
    n := (1.0 / gap).Floor + 1;
    assert n as real * gap >= (1.0 / gap) * gap;
  }

  lemma BelowHalfCrosses(quantile: real)
    requires 0.0 < quantile < 0.5
    ensures !RangesOrdered(quantile)
  {
    var n := CrossingSize(1.0 - quantile - quantile);
    IndicesInRange(n, quantile);
    TimesApart(n, quantile, 1.0 - quantile);
    TimesNotNegative(n, quantile);
    var s := Ramp(n);
    var low, high := LowIdx(n, quantile), HighIdx(n, quantile);
    assert Kept(s, s, quantile, s[low], s[high]);
    assert Calibrates(s, quantile, s[low], s[high]);
  }

  /** Training gives an ordered range for every training set exactly when the quantile is at least one half. */
  lemma RangesOrderedExactly(quantile: real)
    requires quantile > 0.0
    ensures RangesOrdered(quantile) <==> quantile >= 0.5
  {
    if quantile >= 0.5 {
      forall values, min, max | Calibrates(values, quantile, min, max) ensures min <= max {
        CalibratesOrdered(values, quantile, min, max);
      }
    } else {
      BelowHalfCrosses(quantile);
    }
  }

  // ---------- one coordinate ----------

  /** The calibration of one dimension. */
  datatype Range = Range(min: real, max: real)

  const NARROW := 0.00000001

  predicate Narrow(r: Range) { r.max - r.min < NARROW }

  function Width(r: Range): (w: real)
    ensures w > 0.0
  {
    if Narrow(r) then 1.0 else r.max - r.min
  }

  function Scale(r: Range): (s: real)
    ensures s > 0.0
  {
    255.0 / Width(r)
  }

  function Clamp(r: Range, v: real): real {
    var low := if v < r.min then r.min else v;
    if low > r.max then r.max else low
  }

  function Scaled(s: real, x: real): real { x * s }

  /** What is cut to a byte. */
  function Quantized(r: Range, v: real): real {
    var x := Scaled(Scale(r), Clamp(r, v) - r.min);
    if x > 255.0 then 255.0 else x
  }

  type Byte = b: int | 0 <= b < 256

  /** Go leaves it to the platform what byte a number outside 0 to 255 becomes. */
  type Conversion = real -> Byte

  function ToByte(convert: Conversion, x: real): Byte {
    if 0 <= Trunc(x) < 256 then Trunc(x) else convert(x)
  }

  function EncodeOne(convert: Conversion, r: Range, v: real): Byte {
    ToByte(convert, Quantized(r, v))
  }

  function DecodeOne(r: Range, b: int): real {
    b as real / Scale(r) + r.min
  }

  lemma ScaledMonotone(s: real, x: real, y: real)
    requires s > 0.0 && x <= y
    ensures Scaled(s, x) <= Scaled(s, y)
  {
  }

  lemma ScaledBack(s: real, y: real)
    requires s > 0.0
    ensures Scaled(s, y / s) == y
  {
  }

  lemma ScaledWidth(r: Range)
    ensures Scaled(Scale(r), Width(r)) == 255.0
  {
    var w := Width(r);
    assert (255.0 / w) * w == 255.0;
  }

  lemma QuantizedBounds(r: Range, v: real)
    requires r.min <= r.max
    ensures 0.0 <= Quantized(r, v) <= 255.0
    ensures Quantized(r, v) == Scaled(Scale(r), Clamp(r, v) - r.min)
  {
    var x := Clamp(r, v) - r.min;
    ScaledMonotone(Scale(r), 0.0, x);
    ScaledMonotone(Scale(r), x, Width(r));
    ScaledWidth(r);
  }

  /** On an ordered range the platform has no say. */
  lemma EncodeIsTruncated(convert: Conversion, r: Range, v: real)
    requires r.min <= r.max
    ensures EncodeOne(convert, r, v) == Trunc(Quantized(r, v))
    ensures 0 <= Trunc(Quantized(r, v)) <= 255
  {
    QuantizedBounds(r, v);
  }

  lemma EncodeMonotone(convert: Conversion, r: Range, v: real, w: real)
    requires r.min <= r.max && v <= w
    ensures EncodeOne(convert, r, v) <= EncodeOne(convert, r, w)
  {
    QuantizedBounds(r, v);
    QuantizedBounds(r, w);
    ScaledMonotone(Scale(r), Clamp(r, v) - r.min, Clamp(r, w) - r.min);
    TruncMonotone(Quantized(r, v), Quantized(r, w));
  }

  lemma DivideBetween(s: real, b: real, x: real)
    requires s > 0.0 && b <= Scaled(s, x) < b + 1.0
    ensures b / s <= x < b / s + 1.0 / s
  {
    ScaledBack(s, b);
    ScaledBack(s, b + 1.0);
    assert (b + 1.0) / s == b / s + 1.0 / s;
    if x < b / s { ScaledStrict(s, x, b / s); }
    if x >= b / s + 1.0 / s { ScaledMonotone(s, b / s + 1.0 / s, x); }
  }

  lemma ScaledStrict(s: real, x: real, y: real)
    requires s > 0.0 && x < y
    ensures Scaled(s, x) < Scaled(s, y)
  {
  }

  /** The decoded value lies at most one step below the clamped input, and never above it. */
  lemma DecodeWithinStep(convert: Conversion, r: Range, v: real)
    requires r.min <= r.max
    ensures DecodeOne(r, EncodeOne(convert, r, v)) <= Clamp(r, v) < DecodeOne(r, EncodeOne(convert, r, v)) + 1.0 / Scale(r)
  {
    QuantizedBounds(r, v);
    DivideBetween(Scale(r), EncodeOne(convert, r, v) as real, Clamp(r, v) - r.min);
  }

  /**
   On a range wider than one part in a hundred million, a value inside it comes back no more than the 255th part of
   the range too low; values at or below its ends become 0 and 255.
   */
  lemma EncodesOntoBytes(convert: Conversion, min: real, max: real, v: real)
    requires max - min >= 0.00000001
    ensures var r := Range(min, max);
            && (min <= v <= max ==>
                  DecodeOne(r, EncodeOne(convert, r, v)) <= v
                  < DecodeOne(r, EncodeOne(convert, r, v)) + (max - min) / 255.0)
            && (v <= min ==> EncodeOne(convert, r, v) == 0) && (v >= max ==> EncodeOne(convert, r, v) == 255)
  {
    var r := Range(min, max);
    DecodeWithinStep(convert, r, v);
    EncodeIsTruncated(convert, r, v);
    ScaledWidth(r);
    StepIsPart(r);
    if v <= min { assert Scaled(Scale(r), 0.0) == 0.0; }
  }

  lemma StepIsPart(r: Range)
    requires !Narrow(r)
    ensures 1.0 / Scale(r) == (r.max - r.min) / 255.0
  {
    var w := r.max - r.min;
    assert Scale(r) == 255.0 / w;
    assert (255.0 / w) * (w / 255.0) == 1.0;
    ScaledBack(Scale(r), 1.0);
    ScaledUnique(Scale(r), 1.0 / Scale(r), w / 255.0);
  }

  lemma ScaledUnique(s: real, x: real, y: real)
    requires s > 0.0 && Scaled(s, x) == Scaled(s, y)
    ensures x == y
  {
    if x < y { ScaledStrict(s, x, y); }
    if y < x { ScaledStrict(s, y, x); }
  }

  lemma WideRoundTrip(convert: Conversion, r: Range, b: int)
    requires r.min <= r.max && !Narrow(r) && 0 <= b <= 255
    ensures EncodeOne(convert, r, DecodeOne(r, b)) == b
  {
    var s, x := Scale(r), b as real / Scale(r);
    ScaledBack(s, b as real);
    ScaledWidth(r);
    if x > Width(r) { ScaledStrict(s, Width(r), x); }
    if x < 0.0 { ScaledStrict(s, x, 0.0); }
    assert Clamp(r, DecodeOne(r, b)) == x + r.min;
  }

  lemma NarrowGivesZero(convert: Conversion, r: Range, v: real)
    requires r.min <= r.max && Narrow(r)
    ensures EncodeOne(convert, r, v) == 0
  {
    QuantizedBounds(r, v);
    var x := Clamp(r, v) - r.min;
    assert Scale(r) == 255.0;
    assert Scaled(255.0, x) < 1.0;
  }

  /** A byte survives decoding and encoding exactly when it is zero or the range is not degenerate. */
  lemma ByteRoundTripExactly(convert: Conversion, r: Range, b: Byte)
    requires r.min <= r.max
    ensures EncodeOne(convert, r, DecodeOne(r, b)) == b <==> b == 0 || !Narrow(r)
  {
    if Narrow(r) {
      NarrowGivesZero(convert, r, DecodeOne(r, b));
    } else {
      WideRoundTrip(convert, r, b);
    }
  }

  // ---------- the quantizer ----------

  /** The values of one dimension, from the vectors that reach it. */
  function Column(vectors: seq<Vector>, i: nat): seq<real> {
    if vectors == [] then []
    else
      var last := vectors[|vectors| - 1];
      Column(vectors[..|vectors| - 1], i) + if i < |last| then [last[i]] else []
  }

  /** No vector is longer than the dimension and every dimension has a value, so no index is out of range. */
  ghost predicate Trainable(vectors: seq<Vector>, dimension: nat) {
    && (forall j :: 0 <= j < |vectors| ==> |vectors[j]| <= dimension)
    && (forall i :: 0 <= i < dimension ==> Column(vectors, i) != [])
  }

  method Collect(vectors: seq<Vector>, i: nat) returns (values: array<real>)
    ensures fresh(values) && values[..] == Column(vectors, i)
  {
    var column := [];
    for j := 0 to |vectors|
      invariant column == Column(vectors[..j], i)
    {
      assert vectors[..j + 1][..j] == vectors[..j];
      if i < |vectors[j]| {
        column := column + [vectors[j][i]];
      }
    }
    assert vectors[..|vectors|] == vectors;
    values := new real[|column|](x requires 0 <= x < |column| => column[x]);
  }

  method Calibrate(values: array<real>, quantile: real) returns (r: Range)
    requires values.Length > 0 && quantile > 0.0
    modifies values
    ensures Calibrates(old(values[..]), quantile, r.min, r.max)
  {
    ghost var before := values[..];
    SortFloat32s(values);
    ghost var s := values[..];
    SameSize(s, before);
    var lowIdx := Trunc(Times(values.Length, 1.0 - quantile));
    var highIdx := Trunc(Times(values.Length, quantile));
    if lowIdx < 0 {
      lowIdx := 0;
    }
    if highIdx >= values.Length {
      highIdx := values.Length - 1;
    }
    IndicesInRange(values.Length, quantile);
    r := Range(values[lowIdx], values[highIdx]);
    assert Kept(before, s, quantile, r.min, r.max);
  }

  /** The calibration of one dimension and the scale that goes with it. */
  method CalibrateColumn(vectors: seq<Vector>, i: nat, quantile: real) returns (range: Range, scale: real)
    requires Column(vectors, i) != [] && quantile > 0.0
    ensures Calibrates(Column(vectors, i), quantile, range.min, range.max) && scale == Scale(range)
  {
    var values := Collect(vectors, i);
    range := Calibrate(values, quantile);
    var rang := range.max - range.min;
    if rang < NARROW {
      rang := 1.0;
    }
    scale := 255.0 / rang;
  }

  /** Each range comes from its own column. */
  ghost predicate CalibratedOn(ranges: seq<Range>, vectors: seq<Vector>, quantile: real) {
    forall i :: 0 <= i < |ranges| ==> Calibrates(Column(vectors, i), quantile, ranges[i].min, ranges[i].max)
  }

  function ScalesOf(ranges: seq<Range>): (scales: seq<real>)
    ensures |scales| == |ranges|
  {
    seq(|ranges|, i requires 0 <= i < |ranges| => Scale(ranges[i]))
  }

  lemma ScalesNext(ranges: seq<Range>, r: Range)
    ensures ScalesOf(ranges + [r]) == ScalesOf(ranges) + [Scale(r)]
  {
  }

  function ZeroBytes(n: nat): (zeros: seq<Byte>)
    ensures |zeros| == n
  {
    seq(n, _ => 0)
  }

  /** One byte per dimension, zero where the vector gives no coordinate. */
  function EncodeAll(convert: Conversion, ranges: seq<Range>, vector: Vector): (data: seq<Byte>)
    requires |vector| <= |ranges|
    ensures |data| == |ranges|
  {
    seq(|ranges|, i requires 0 <= i < |ranges| =>
      if i < |vector| then EncodeOne(convert, ranges[i], vector[i]) else 0)
  }

  /** A float: division by a scale of zero gives no number. */
  datatype Float = Finite(x: real) | Infinite | NotANumber

  function Divide(b: Byte, scale: real): Float {
    if scale != 0.0 then Finite(b as real / scale) else if b == 0 then NotANumber else Infinite
  }

  function Add(f: Float, x: real): Float {
    if f.Finite? then Finite(f.x + x) else f
  }

  /** One value per dimension, zero where no byte is given. */
  function DecodeAll(ranges: seq<Range>, scales: seq<real>, data: seq<Byte>): (vector: seq<Float>)
    requires |scales| == |ranges| && |data| <= |ranges|
    ensures |vector| == |ranges|
  {
    seq(|ranges|, i requires 0 <= i < |ranges| =>
      if i < |data| then Add(Divide(data[i], scales[i]), ranges[i].min) else Finite(0.0))
  }

  /** The state of a quantizer that was never trained. */
  predicate Unset(ranges: seq<Range>, scales: seq<real>) {
    && (forall i :: 0 <= i < |ranges| ==> ranges[i] == Range(0.0, 0.0))
    && (forall i :: 0 <= i < |scales| ==> scales[i] == 0.0)
  }

  class Quantizer {
    const dimension: nat
    const quantile: real
    const convert: Conversion
    var ranges: seq<Range>
    var scales: seq<real>
    var trained: bool

    ghost predicate Valid()
      reads this
    {
      && quantile > 0.0 && |ranges| == |scales| == dimension
      && if trained then scales == ScalesOf(ranges) else Unset(ranges, scales)
    }

    constructor (dimension: nat, quantile: real, convert: Conversion)
      requires quantile > 0.0
      ensures Valid() && !trained
      ensures this.dimension == dimension && this.quantile == quantile && this.convert == convert
    {
      this.dimension, this.quantile, this.convert := dimension, quantile, convert;
      ranges, scales := seq(dimension, _ => Range(0.0, 0.0)), seq(dimension, _ => 0.0);
      trained := false;
    }

    method Train(vectors: seq<Vector>) returns (r: Result<(), string>)
      requires Valid() && (vectors != [] ==> Trainable(vectors, dimension))
      modifies this
      ensures Valid()
      ensures r.Failure? <==> vectors == []
      ensures r.Failure? ==> ranges == old(ranges) && scales == old(scales) && trained == old(trained)
      ensures r.Success? ==> trained && CalibratedOn(ranges, vectors, quantile)
    {
      if |vectors| == 0 {
        return Failure("no vectors to train on");
      }
      var rs, ss := [], [];
      for i := 0 to dimension
        invariant |rs| == i && ss == ScalesOf(rs)
        invariant CalibratedOn(rs, vectors, quantile)
      {
        var range, scale := CalibrateColumn(vectors, i, quantile);
        ScalesNext(rs, range);
        rs, ss := rs + [range], ss + [scale];
      }
      ranges, scales, trained := rs, ss, true;
      return Success(());
    }

    /** An untrained quantizer is first trained on the vector itself. */
    method Encode(vector: Vector) returns (data: seq<Byte>)
      requires Valid() && |vector| <= dimension && (!trained ==> |vector| == dimension)
      modifies this
      ensures Valid() && trained
      ensures if old(trained) then ranges == old(ranges) && scales == old(scales) else ranges == Points(vector)
      ensures data == EncodeAll(convert, ranges, vector)
    {
      if !trained {
        SelfTrainable(vector);
        var _ := Train([vector]);
        SelfTrained(ranges, vector, quantile);
      }
      data := [];
      for i := 0 to |vector|
        invariant |data| == i
        invariant forall x :: 0 <= x < i ==> data[x] == EncodeOne(convert, ranges[x], vector[x])
      {
        var v := vector[i];
        if v < ranges[i].min {
          v := ranges[i].min;
        }
        if v > ranges[i].max {
          v := ranges[i].max;
        }
        var quantized := Scaled(scales[i], v - ranges[i].min);
        if quantized > 255.0 {
          quantized := 255.0;
        }
        data := data + [ToByte(convert, quantized)];
      }
      data := data + seq(dimension - |vector|, _ => 0);
      assert data == EncodeAll(convert, ranges, vector);
    }

    method Decode(data: seq<Byte>) returns (vector: seq<Float>)
      requires Valid() && |data| <= dimension
      ensures vector == DecodeAll(ranges, scales, data)
    {
      vector := [];
      for i := 0 to |data|
        invariant |vector| == i
        invariant forall x :: 0 <= x < i ==> vector[x] == Add(Divide(data[x], scales[x]), ranges[x].min)
      {
        vector := vector + [Add(Divide(data[i], scales[i]), ranges[i].min)];
      }
      vector := vector + seq(dimension - |data|, _ => Finite(0.0));
      assert vector == DecodeAll(ranges, scales, data);
    }
  }

  /** A trained quantizer decodes every byte to a number; an untrained one decodes none. */
  lemma DecodesToNumbersExactly(ranges: seq<Range>, scales: seq<real>, data: seq<Byte>, i: nat)
    requires |scales| == |ranges| && i < |data| <= |ranges|
    requires scales == ScalesOf(ranges) || Unset(ranges, scales)
    ensures DecodeAll(ranges, scales, data)[i].Finite? <==> scales == ScalesOf(ranges)
    ensures scales == ScalesOf(ranges) ==> DecodeAll(ranges, scales, data)[i] == Finite(DecodeOne(ranges[i], data[i]))
  {
    if scales == ScalesOf(ranges) {
      assert scales[i] == Scale(ranges[i]);
    }
  }

  lemma CalibratesOne(v: real, quantile: real, min: real, max: real)
    requires Calibrates([v], quantile, min, max)
    ensures min == v && max == v
  {
    var s :| Kept([v], s, quantile, min, max);
    SameSize(s, [v]);
    assert s[0] in multiset(s);
    assert s[0] in multiset([v]);
  }

  lemma ColumnOfOne(vector: Vector, i: nat)
    requires i < |vector|
    ensures Column([vector], i) == [vector[i]]
  {
    assert [vector][..0] == [];
  }

  /** The ranges an untrained quantizer makes of a vector. */
  function Points(vector: Vector): (ranges: seq<Range>)
    ensures |ranges| == |vector|
  {
    seq(|vector|, i requires 0 <= i < |vector| => Range(vector[i], vector[i]))
  }

  lemma SelfTrainable(vector: Vector)
    ensures Trainable([vector], |vector|)
  {
    forall i | 0 <= i < |vector| ensures Column([vector], i) != [] { ColumnOfOne(vector, i); }
  }

  lemma SelfTrained(ranges: seq<Range>, vector: Vector, quantile: real)
    requires |ranges| == |vector| && CalibratedOn(ranges, [vector], quantile)
    ensures ranges == Points(vector)
  {
    forall i | 0 <= i < |vector| ensures ranges[i] == Points(vector)[i] {
      ColumnOfOne(vector, i);
      CalibratesOne(vector[i], quantile, ranges[i].min, ranges[i].max);
    }
  }

  function Floats(vector: Vector): seq<Float> {
    seq(|vector|, i requires 0 <= i < |vector| => Finite(vector[i]))
  }

  /** What `Encode` of an untrained quantizer makes of a vector, `Decode` gives back exactly, from all-zero bytes. */
  lemma UntrainedRoundTrip(convert: Conversion, vector: Vector)
    ensures EncodeAll(convert, Points(vector), vector) == ZeroBytes(|vector|)
    ensures DecodeAll(Points(vector), ScalesOf(Points(vector)), EncodeAll(convert, Points(vector), vector)) == Floats(vector)
  {
    var ranges, data := Points(vector), EncodeAll(convert, Points(vector), vector);
    forall i | 0 <= i < |vector|
      ensures data[i] == 0 && DecodeAll(ranges, ScalesOf(ranges), data)[i] == Finite(vector[i])
    {
      NarrowGivesZero(convert, Range(vector[i], vector[i]), vector[i]);
      DecodesToNumbersExactly(ranges, ScalesOf(ranges), data, i);
    }
  }
}
