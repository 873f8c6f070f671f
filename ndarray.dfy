/** numpy arrays as numpy stores them: a shape and the elements in row-major (C)
    order. Viewed along one axis, an array is a set of one-dimensional lanes (the
    slices `a[o, :, i]`), and the index arithmetic below moves between a flat
    position and its lane and position along the axis. */
module NdArrays {
  import opened Seqs

  /** The number of elements of an array of the given shape. */
  function Product(shape: seq<nat>): nat
  {
    if shape == [] then 1 else shape[0] * Product(shape[1..])
  }

  lemma {:induction false} ProductConcat(a: seq<nat>, b: seq<nat>)
    ensures Product(a + b) == Product(a) * Product(b)
  {
    if a != [] {
      assert (a + b)[0] == a[0] && (a + b)[1..] == a[1..] + b;
      ProductConcat(a[1..], b);
      assert Product(a + b) == a[0] * (Product(a[1..]) * Product(b));
      MulAssoc(a[0], Product(a[1..]), Product(b));
    } else {
      assert a + b == b;
    }
  }

  lemma MulAssoc(x: nat, y: nat, z: nat)
    ensures x * (y * z) == (x * y) * z
  {
  }

  /** The shape without one axis: the shape of a reduction such as `sum(axis=k)`. */
  function DropAt(shape: seq<nat>, axis: nat): (r: seq<nat>)
    requires axis < |shape|
    ensures |r| == |shape| - 1
  {
    shape[..axis] + shape[axis + 1..]
  }

  /** An n-dimensional array: its shape and its elements in row-major order. */
  datatype Nd<T> = Nd(shape: seq<nat>, data: seq<T>)
  {
    predicate Valid()
    {
      |data| == Product(shape)
    }
  }

  /** An array seen along one axis: `outer` elements for the axes before it, `n`
      positions along it, and `inner` elements for the axes after it. Lane b is the
      slice at outer index b / inner and inner index b % inner. */
  datatype Layout = Layout(outer: nat, n: nat, inner: nat)
  {
    function Size(): nat
    {
      outer * n * inner
    }

    /** The number of lanes, which is the size of the reduced array. */
    function Lanes(): nat
    {
      outer * inner
    }

    /** The flat position of element j of lane b. */
    function Pos(b: nat, j: nat): (p: nat)
      requires b < Lanes() && j < n
      ensures p < Size()
    {
      PosBound(b, j);
      ((b / inner) * n + j) * inner + b % inner
    }

    /** The lane that flat position p lies on. */
    function LaneOf(p: nat): (b: nat)
      requires p < Size()
      ensures b < Lanes()
    {
      CoordBound(p);
      var o: nat, i: nat := p / inner / n, p % inner;
      assert o < outer && i < inner;
      BlockBound(o, i, outer, inner);
      o * inner + i
    }

    /** The index along the axis of flat position p. */
    function AxisCoord(p: nat): (j: nat)
      requires p < Size()
      ensures j < n
    {
      CoordBound(p);
      (p / inner) % n
    }

    lemma PosBound(b: nat, j: nat)
      requires b < Lanes() && j < n
      ensures inner > 0
      ensures ((b / inner) * n + j) * inner + b % inner < Size()
    {
      DivBound(b, outer, inner);
      DivMod(b, inner);
      var o, i := b / inner, b % inner;
      BlockBound(o, j, outer, n);
      BlockBound(o * n + j, i, outer * n, inner);
    }

    lemma CoordBound(p: nat)
      requires p < Size()
      ensures inner > 0 && n > 0
      ensures p / inner / n < outer && p % inner < inner
    {
      DivBound(p, outer * n, inner);
      var q := p / inner;
      DivBound(q, outer, n);
      DivMod(p, inner);
    }

    /** Element j of lane b lies on lane b at index j. */
    lemma PosCoords(b: nat, j: nat)
      requires b < Lanes() && j < n
      ensures LaneOf(Pos(b, j)) == b && AxisCoord(Pos(b, j)) == j
    {
      PosBound(b, j);
      DivMod(b, inner);
      var o, i := b / inner, b % inner;
      var q := o * n + j;
      var p := q * inner + i;
      assert Pos(b, j) == p;
      SplitTwice(o, j, i, n, inner);
      assert p / inner == q && p % inner == i;
      assert q / n == o && q % n == j;
      assert LaneOf(p) == o * inner + i;
      assert AxisCoord(p) == j;
    }

    /** Every flat position is some element of some lane. */
    lemma CoordsPos(p: nat)
      requires p < Size()
      ensures Pos(LaneOf(p), AxisCoord(p)) == p
    {
      CoordBound(p);
      DivMod(p, inner);
      var q := p / inner;
      DivMod(q, n);
      var o, j, i := q / n, q % n, p % inner;
      FlatSplit(o, i, inner);
    }
  }

  lemma BlockBound(o: nat, k: nat, outer: nat, d: nat)
    requires o < outer && k < d
    ensures o * d + k < outer * d
  {
    assert (o + 1) * d == o * d + d;
    MulLe(o + 1, outer, d);
  }

  lemma DivMod(x: nat, d: nat)
    requires d > 0
    ensures x == (x / d) * d + x % d && 0 <= x % d < d
  {
  }

  lemma FlatSplit(q: nat, r: nat, d: nat)
    requires r < d
    ensures (q * d + r) / d == q && (q * d + r) % d == r
  {
    var x := q * d + r;
    var a, b := x / d, x % d;
    assert x == a * d + b;
    if a < q {
      MulAtLeast(q - a, d);
      assert false;
    } else if a > q {
      MulAtLeast(a - q, d);
      assert false;
    }
  }

  /** A position built from block o, index j and offset i splits back into them. */
  lemma SplitTwice(o: nat, j: nat, i: nat, n: nat, inner: nat)
    requires j < n && i < inner
    ensures ((o * n + j) * inner + i) / inner == o * n + j
    ensures ((o * n + j) * inner + i) % inner == i
    ensures (o * n + j) / n == o && (o * n + j) % n == j
  {
    FlatSplit(o * n + j, i, inner);
    FlatSplit(o, j, n);
  }

  lemma MulAtLeast(k: int, d: nat)
    requires k >= 1
    ensures k * d >= d
  {
  }

  lemma DivBound(p: nat, a: nat, d: nat)
    requires p < a * d
    ensures d > 0 && p / d < a
  {
  }

  lemma MulLe(a: nat, b: nat, d: nat)
    requires a <= b
    ensures a * d <= b * d
  {
  }

  /** The layout of `shape` along `axis`. */
  function LayoutOf(shape: seq<nat>, axis: nat): (l: Layout)
    requires axis < |shape|
    ensures l.n == shape[axis]
    ensures l.Size() == Product(shape)
    ensures l.Lanes() == Product(DropAt(shape, axis))
  {
    var before, after := shape[..axis], shape[axis + 1..];
    assert shape == before + ([shape[axis]] + after);
    ProductConcat(before, [shape[axis]] + after);
    ProductConcat([shape[axis]], after);
    assert Product([shape[axis]]) == shape[axis];
    ProductConcat(before, after);
    MulAssoc(Product(before), shape[axis], Product(after));
    Layout(Product(before), shape[axis], Product(after))
  }

  /** The one-dimensional slice that is lane b. */
  function Lane<T>(data: seq<T>, l: Layout, b: nat): (r: seq<T>)
    requires |data| == l.Size() && b < l.Lanes()
    ensures |r| == l.n
  {
    seq(l.n, j requires 0 <= j < l.n => data[l.Pos(b, j)])
  }

  /** Two arrays of one layout whose lanes agree are equal. */
  lemma LanesDetermine<T>(x: seq<T>, y: seq<T>, l: Layout)
    requires |x| == l.Size() && |y| == l.Size()
    requires forall b :: 0 <= b < l.Lanes() ==> Lane(x, l, b) == Lane(y, l, b)
    ensures x == y
  {
    forall p | 0 <= p < |x|
      ensures x[p] == y[p]
    {
      l.CoordsPos(p);
      var b, j := l.LaneOf(p), l.AxisCoord(p);
      assert Lane(x, l, b)[j] == Lane(y, l, b)[j];
    }
  }

  /** `flags.cumsum(axis=k) != 0`: the running "some flag so far" along the axis. */
  function CumAnyAlong(flags: seq<bool>, l: Layout): (m: seq<bool>)
    requires |flags| == l.Size()
    ensures |m| == |flags|
  {
    seq(l.Size(), p requires 0 <= p < l.Size() => CumAny(Lane(flags, l, l.LaneOf(p)))[l.AxisCoord(p)])
  }

  /** Each lane of the running flag is the running flag of that lane, whichever axis
      it runs along. */
  lemma CumAnyAlongLanes(flags: seq<bool>, l: Layout, b: nat)
    requires |flags| == l.Size() && b < l.Lanes()
    ensures Lane(CumAnyAlong(flags, l), l, b) == CumAny(Lane(flags, l, b))
  {
    var m := CumAnyAlong(flags, l);
    forall j | 0 <= j < l.n
      ensures Lane(m, l, b)[j] == CumAny(Lane(flags, l, b))[j]
    {
      l.PosCoords(b, j);
    }
  }

  /** `np.ravel(np.moveaxis(a, k, -1))`: the lanes laid end to end, lane b occupying
      positions b * n to (b + 1) * n. */
  function MovedRavel<T>(data: seq<T>, l: Layout): (r: seq<T>)
    requires |data| == l.Size()
    ensures |r| == l.Lanes() * l.n
  {
    seq(l.Lanes() * l.n, q requires 0 <= q < l.Lanes() * l.n =>
      DivBound(q, l.Lanes(), l.n);
      data[l.Pos(q / l.n, q % l.n)])
  }

  /** The inverse of MovedRavel: `.reshape(...)` and the axis moved back. */
  function Restore<T>(flat: seq<T>, l: Layout): (r: seq<T>)
    requires |flat| == l.Lanes() * l.n
    ensures |r| == l.Size()
  {
    seq(l.Size(), p requires 0 <= p < l.Size() =>
      var b, j := l.LaneOf(p), l.AxisCoord(p);
      BlockBound(b, j, l.Lanes(), l.n);
      flat[b * l.n + j])
  }

  /** Lane b of the restored array is the block of n elements at b * n. */
  lemma RestoreLane<T>(flat: seq<T>, l: Layout, b: nat)
    requires |flat| == l.Lanes() * l.n && b < l.Lanes()
    ensures (b + 1) * l.n <= |flat|
    ensures Lane(Restore(flat, l), l, b) == flat[b * l.n..(b + 1) * l.n]
  {
    MulLe(b + 1, l.Lanes(), l.n);
    forall j | 0 <= j < l.n
      ensures Lane(Restore(flat, l), l, b)[j] == flat[b * l.n + j]
    {
      l.PosCoords(b, j);
    }
  }

  /** The block of n elements at b * n of the moved ravel is lane b. */
  lemma MovedRavelBlock<T>(data: seq<T>, l: Layout, b: nat)
    requires |data| == l.Size() && b < l.Lanes()
    ensures (b + 1) * l.n <= l.Lanes() * l.n
    ensures MovedRavel(data, l)[b * l.n..(b + 1) * l.n] == Lane(data, l, b)
  {
    MulLe(b + 1, l.Lanes(), l.n);
    forall j | 0 <= j < l.n
      ensures MovedRavel(data, l)[b * l.n + j] == Lane(data, l, b)[j]
    {
      FlatSplit(b, j, l.n);
    }
  }
}
