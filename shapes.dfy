/** Shape and stride arithmetic of the ndarray view: element counts, row-major
    strides, the linear offset of a (partial) multi-index, and its inverse, the
    decomposition of a linear offset into a multi-index. */
module Shapes {
  import opened Results

  /** size_for_shape: the number of elements of an array of this shape
      (1 for the empty shape, which describes a scalar). Defined front to
      back; ProductIsAccumulate proves it equal to the source's running
      product. */
  function Product(s: seq<nat>): nat
  {
    if |s| == 0 then 1 else s[0] * Product(s[1..])
  }

  /** std::accumulate(begin, end, 1, multiplies): the running product, taking
      the extents from the first to the last. */
  function AccumulateProduct(s: seq<nat>): nat
  {
    if |s| == 0 then 1 else AccumulateProduct(s[..|s| - 1]) * s[|s| - 1]
  }

  lemma {:induction false} AccumulateProductFront(s: seq<nat>)
    requires |s| > 0
    ensures AccumulateProduct(s) == s[0] * AccumulateProduct(s[1..])
    decreases |s|
  {
    var n := |s|;
    if n > 1 {
      AccumulateProductFront(s[..n - 1]);
      assert s[..n - 1][1..] == s[1..][..n - 2];
      MulAssoc(s[0], AccumulateProduct(s[1..][..n - 2]), s[n - 1]);
    }
  }

  /** The element count is what std::accumulate computes over the extents. */
  lemma {:induction false} ProductIsAccumulate(s: seq<nat>)
    ensures Product(s) == AccumulateProduct(s)
    decreases |s|
  {
    if |s| > 0 {
      ProductIsAccumulate(s[1..]);
      AccumulateProductFront(s);
    }
  }

  /** Every extent is non-zero; exactly the shapes with at least one element. */
  predicate Positive(s: seq<nat>)
  {
    forall i :: 0 <= i < |s| ==> s[i] > 0
  }

  /** Row-major strides: the stride of axis k is the number of elements spanned
      by the axes after k. */
  function StridesFor(s: seq<nat>): (str: seq<nat>)
    ensures |str| == |s|
  {
    seq(|s|, k requires 0 <= k < |s| => Product(s[k + 1..]))
  }

  /** compute_offset / get_index: the inner product of indices and strides,
      over as many leading axes as there are indices. Defined front to back;
      DotIsInnerProduct proves it equal to the source's running sum. */
  function Dot(idx: seq<nat>, str: seq<nat>): nat
    requires |idx| <= |str|
  {
    if |idx| == 0 then 0 else idx[0] * str[0] + Dot(idx[1..], str[1..])
  }

  /** std::inner_product(begin, end, strides, 0): the running sum of
      index-times-stride, taking the axes from the first to the last. */
  function AccumulateDot(idx: seq<nat>, str: seq<nat>): nat
    requires |idx| <= |str|
  {
    if |idx| == 0 then 0
    else AccumulateDot(idx[..|idx| - 1], str) + idx[|idx| - 1] * str[|idx| - 1]
  }

  lemma {:induction false} AccumulateDotFront(idx: seq<nat>, str: seq<nat>)
    requires 0 < |idx| <= |str|
    ensures AccumulateDot(idx, str) == idx[0] * str[0] + AccumulateDot(idx[1..], str[1..])
    decreases |idx|
  {
    var n := |idx|;
    if n > 1 {
      AccumulateDotFront(idx[..n - 1], str);
      assert idx[..n - 1][1..] == idx[1..][..n - 2];
    }
  }

  /** The offset of a multi-index is what std::inner_product computes over the
      indices and the strides. */
  lemma {:induction false} DotIsInnerProduct(idx: seq<nat>, str: seq<nat>)
    requires |idx| <= |str|
    ensures Dot(idx, str) == AccumulateDot(idx, str)
    decreases |idx|
  {
    if |idx| > 0 {
      DotIsInnerProduct(idx[1..], str[1..]);
      AccumulateDotFront(idx, str);
    }
  }

  /** Each given index is below the extent of its axis, and there are at most
      as many indices as axes. */
  predicate InRange(idx: seq<nat>, shape: seq<nat>)
  {
    |idx| <= |shape| && forall i :: 0 <= i < |idx| ==> idx[i] < shape[i]
  }

  /** A full multi-index: one in-range index per axis. */
  predicate IsFullIndex(idx: seq<nat>, shape: seq<nat>)
  {
    |idx| == |shape| && InRange(idx, shape)
  }

  /** strides_for_shape: the backward loop `str[k] = str[k+1] * shape[k+1]`. */
  method StridesForShape(shape: seq<nat>) returns (str: seq<nat>)
    ensures str == StridesFor(shape)
  {
    var n := |shape|;
    str := seq(n, _ => 0);
    if n == 0 {
      return;
    }
    str := str[n - 1 := 1];
    assert shape[n..] == [];
    var k := n - 2;
    while k >= 0
      invariant -1 <= k <= n - 2
      invariant |str| == n
      invariant forall j :: k < j < n ==> str[j] == Product(shape[j + 1..])
    {
      assert shape[k + 1..][1..] == shape[k + 2..];
      str := str[k := str[k + 1] * shape[k + 1]];
      k := k - 1;
    }
  }

  /** check_dimensions followed by the per-axis bound check of get_shape and
      get_index: too many indices is a dimension error, an index at or past
      its extent is an index error. */
  function CheckIndices(shape: seq<nat>, idx: seq<nat>): (r: Outcome)
    ensures r.Pass? <==> InRange(idx, shape)
    ensures r == Fail(DimensionMismatch) <==> |idx| > |shape|
    ensures r.Fail? ==> r.error == DimensionMismatch || r.error == IndexOutOfRange
  {
    if |idx| > |shape| then Fail(DimensionMismatch) else CheckBounds(shape, idx)
  }

  /** The loop over the given indices that stops at the first one out of range. */
  function CheckBounds(shape: seq<nat>, idx: seq<nat>): (r: Outcome)
    requires |idx| <= |shape|
    ensures r.Pass? <==> InRange(idx, shape)
    ensures r.Fail? ==> r.error == IndexOutOfRange
  {
    if |idx| == 0 then Pass
    else if idx[0] >= shape[0] then Fail(IndexOutOfRange)
    else
      var rest := CheckBounds(shape[1..], idx[1..]);
      assert InRange(idx[1..], shape[1..]) ==> InRange(idx, shape) by {
        if InRange(idx[1..], shape[1..]) {
          forall i | 0 <= i < |idx| ensures idx[i] < shape[i] {
            if i > 0 { assert idx[1..][i - 1] < shape[1..][i - 1]; }
          }
        }
      }
      rest
  }

  /** get_shape: the shape of the sub-array selected by the leading indices. */
  function GetShape(shape: seq<nat>, idx: seq<nat>): (r: Result<seq<nat>>)
    ensures r.Success? <==> InRange(idx, shape)
    ensures r.Failure? ==> r.error == (if |idx| > |shape| then DimensionMismatch else IndexOutOfRange)
    ensures r.Success? ==> |r.value| == |shape| - |idx| && shape == shape[..|idx|] + r.value
  {
    match CheckIndices(shape, idx)
    case Fail(e) => Failure(e)
    case Pass => Success(shape[|idx|..])
  }

  /** Decomposition of a linear offset into a multi-index, last axis first:
      the digit of each axis is the remainder by its extent, and the quotient
      moves on to the axis before it. */
  function Unravel(shape: seq<nat>, k: nat): (idx: seq<nat>)
    requires Positive(shape)
    ensures IsFullIndex(idx, shape)
  {
    if |shape| == 0 then []
    else
      var n := |shape|;
      var front := Unravel(shape[..n - 1], k / shape[n - 1]);
      var idx := front + [k % shape[n - 1]];
      assert forall i :: 0 <= i < n - 1 ==> idx[i] == front[i] && front[i] < shape[..n - 1][i];
      idx
  }

  // ---------------------------------------------------------------------
  // Lemmas about sizes and strides

  lemma {:induction false} ProductAppend(u: seq<nat>, v: seq<nat>)
    ensures Product(u + v) == Product(u) * Product(v)
  {
    if |u| == 0 {
      assert u + v == v;
    } else {
      assert (u + v)[1..] == u[1..] + v;
      ProductAppend(u[1..], v);
      calc {
        Product(u + v);
        u[0] * Product(u[1..] + v);
        u[0] * (Product(u[1..]) * Product(v));
        (u[0] * Product(u[1..])) * Product(v);
      }
    }
  }

  /** A shape has elements exactly when no extent is zero. */
  lemma {:induction false} ProductPositive(s: seq<nat>)
    ensures Product(s) > 0 <==> Positive(s)
  {
    if |s| > 0 {
      ProductPositive(s[1..]);
      assert Positive(s) <==> s[0] > 0 && Positive(s[1..]) by {
        if s[0] > 0 && Positive(s[1..]) {
          forall i | 0 <= i < |s| ensures s[i] > 0 {
            if i > 0 { assert s[1..][i - 1] == s[i]; }
          }
        }
      }
      if s[0] > 0 && Product(s[1..]) > 0 {
        MulPositive(s[0], Product(s[1..]));
      }
    }
  }

  lemma MulPositive(a: nat, b: nat)
    requires a > 0 && b > 0
    ensures a * b > 0
  {
  }

  /** The stride law, for every shape: the last stride is 1 and each stride
      is the next one times the next extent. The library's own test checks it
      on (1,2,3,4,5). */
  lemma StridesLaw(s: seq<nat>)
    ensures |StridesFor(s)| == |s|
    ensures |s| > 0 ==> StridesFor(s)[|s| - 1] == 1
    ensures forall k :: 0 <= k < |s| - 1 ==> StridesFor(s)[k] == StridesFor(s)[k + 1] * s[k + 1]
  {
    if |s| > 0 {
      assert s[|s|..] == [];
    }
    forall k | 0 <= k < |s| - 1
      ensures StridesFor(s)[k] == StridesFor(s)[k + 1] * s[k + 1]
    {
      assert s[k + 1..][1..] == s[k + 2..];
    }
  }

  /** Size and strides of the shape used by the library's own test. */
  lemma StridesExample()
    ensures Product([1, 2, 3, 4, 5]) == 120
    ensures StridesFor([1, 2, 3, 4, 5]) == [120, 60, 20, 5, 1]
  {
    var s: seq<nat> := [1, 2, 3, 4, 5];
    assert s[5..] == [];
    assert s[4..] == [5];
    assert s[3..] == [4, 5];
    assert s[2..] == [3, 4, 5];
    assert s[1..] == [2, 3, 4, 5];
  }

  /** The strides of the axes after the first are the strides of the tail shape. */
  lemma StridesTail(s: seq<nat>)
    requires |s| > 0
    ensures StridesFor(s)[0] == Product(s[1..])
    ensures StridesFor(s)[1..] == StridesFor(s[1..])
  {
    forall k | 0 <= k < |s| - 1 ensures StridesFor(s)[1..][k] == StridesFor(s[1..])[k] {
      assert s[1..][k + 1..] == s[k + 2..];
    }
  }

  /** Appending an axis of extent d scales every earlier stride by d. */
  lemma StridesSnoc(s: seq<nat>, d: nat)
    ensures forall k :: 0 <= k < |s| ==> StridesFor(s + [d])[k] == StridesFor(s)[k] * d
    ensures StridesFor(s + [d])[|s|] == 1
  {
    forall k | 0 <= k < |s| ensures StridesFor(s + [d])[k] == StridesFor(s)[k] * d {
      assert (s + [d])[k + 1..] == s[k + 1..] + [d];
      ProductAppend(s[k + 1..], [d]);
      assert Product([d]) == d * Product([]);
    }
    assert (s + [d])[|s| + 1..] == [];
  }

  lemma {:induction false} DotScaled(u: seq<nat>, v: seq<nat>, w: seq<nat>, d: nat, x: nat)
    requires |u| == |v| && |w| == |v| + 1
    requires forall k :: 0 <= k < |v| ==> w[k] == v[k] * d
    requires w[|v|] == 1
    ensures Dot(u + [x], w) == d * Dot(u, v) + x
  {
    if |u| == 0 {
      assert u + [x] == [x];
    } else {
      assert (u + [x])[1..] == u[1..] + [x];
      DotScaled(u[1..], v[1..], w[1..], d, x);
      calc {
        Dot(u + [x], w);
        u[0] * w[0] + Dot(u[1..] + [x], w[1..]);
        u[0] * (v[0] * d) + (d * Dot(u[1..], v[1..]) + x);
        { MulAssoc(u[0], v[0], d); }
        d * (u[0] * v[0] + Dot(u[1..], v[1..])) + x;
      }
    }
  }

  lemma MulAssoc(a: nat, b: nat, c: nat)
    ensures a * (b * c) == c * (a * b)
  {
  }

  /** Horner form of the row-major offset: appending an index x on a new last
      axis of extent d gives d times the old offset plus x. */
  lemma DotSnoc(u: seq<nat>, x: nat, s: seq<nat>, d: nat)
    requires |u| == |s|
    ensures Dot(u + [x], StridesFor(s + [d])) == d * Dot(u, StridesFor(s)) + x
  {
    StridesSnoc(s, d);
    DotScaled(u, StridesFor(s), StridesFor(s + [d]), d, x);
  }

  /** The key bound: the offset of in-range leading indices leaves room for the
      whole sub-array they select. In particular a full index lands below the
      element count. */
  lemma {:induction false} DotBound(shape: seq<nat>, idx: seq<nat>)
    requires InRange(idx, shape)
    ensures Dot(idx, StridesFor(shape)) + Product(shape[|idx|..]) <= Product(shape)
  {
    if |idx| == 0 {
      assert shape[0..] == shape;
    } else {
      var rest := shape[1..];
      StridesTail(shape);
      assert InRange(idx[1..], rest) by {
        forall i | 0 <= i < |idx| - 1 ensures idx[1..][i] < rest[i] {
          assert idx[i + 1] < shape[i + 1];
        }
      }
      DotBound(rest, idx[1..]);
      assert rest[|idx| - 1..] == shape[|idx|..];
      var p := Product(rest);
      var inner := Dot(idx[1..], StridesFor(rest));
      assert inner + Product(shape[|idx|..]) <= p;
      assert Dot(idx, StridesFor(shape)) == idx[0] * p + inner;
      assert Product(shape) == shape[0] * p;
      MulSucc(idx[0], p);
      MulMono(idx[0] + 1, shape[0], p);
    }
  }

  lemma MulSucc(a: nat, b: nat)
    ensures (a + 1) * b == a * b + b
  {
  }

  lemma MulMono(a: nat, b: nat, c: nat)
    requires a <= b
    ensures a * c <= b * c
  {
  }

  lemma FullIndexBelowSize(shape: seq<nat>, idx: seq<nat>)
    requires IsFullIndex(idx, shape)
    ensures Dot(idx, StridesFor(shape)) < Product(shape)
  {
    DotBound(shape, idx);
    assert shape[|idx|..] == [];
  }

  lemma DivModUnique(q: nat, d: nat, x: nat)
    requires x < d
    ensures (d * q + x) / d == q && (d * q + x) % d == x
  {
    var m := d * q + x;
    var q', r' := m / d, m % d;
    assert d * q' + r' == d * q + x;
    if q' < q {
      MulMono(q' + 1, q, d);
    } else if q' > q {
      MulMono(q + 1, q', d);
    }
  }

  /** Decomposing the offset of a linear position gives back that position:
      every position below the element count is addressed by some full index. */
  lemma {:induction false} RavelUnravel(shape: seq<nat>, k: nat)
    requires Positive(shape) && k < Product(shape)
    ensures Dot(Unravel(shape, k), StridesFor(shape)) == k
  {
    if |shape| > 0 {
      var n := |shape|;
      var front, d := shape[..n - 1], shape[n - 1];
      var q, r := k / d, k % d;
      FrontBound(shape, k);
      RavelUnravel(front, q);
      DivModSplit(k, d);
      RavelStep(front, d, Unravel(front, q), q, r, k);
      assert shape == front + [d];
    }
  }

  /** The leading axes of a shape are positive and the quotient by the last
      extent is one of their positions. */
  lemma FrontBound(shape: seq<nat>, k: nat)
    requires Positive(shape) && |shape| > 0 && k < Product(shape)
    ensures Positive(shape[..|shape| - 1])
    ensures k / shape[|shape| - 1] < Product(shape[..|shape| - 1])
  {
    var n := |shape|;
    SplitLast(shape);
    assert forall i :: 0 <= i < n - 1 ==> shape[..n - 1][i] == shape[i];
    QuotientBound(k, shape[n - 1], Product(shape[..n - 1]));
  }

  /** Appending the remainder as the last digit: q's index followed by r
      addresses d * q + r. */
  lemma RavelStep(front: seq<nat>, d: nat, u: seq<nat>, q: nat, r: nat, k: nat)
    requires |u| == |front| && Dot(u, StridesFor(front)) == q && d * q + r == k
    ensures Dot(u + [r], StridesFor(front + [d])) == k
  {
    DotSnoc(u, r, front, d);
  }

  lemma DivModSplit(k: nat, d: nat)
    requires d > 0
    ensures d * (k / d) + k % d == k
  {
  }

  /** Splitting off the last axis: the element count is the count of the
      leading axes times the last extent. */
  lemma SplitLast(shape: seq<nat>)
    requires |shape| > 0
    ensures shape == shape[..|shape| - 1] + [shape[|shape| - 1]]
    ensures Product(shape) == Product(shape[..|shape| - 1]) * shape[|shape| - 1]
  {
    var n := |shape|;
    assert shape == shape[..n - 1] + [shape[n - 1]];
    ProductAppend(shape[..n - 1], [shape[n - 1]]);
    assert Product([shape[n - 1]]) == shape[n - 1] * Product([]);
  }

  lemma QuotientBound(k: nat, d: nat, p: nat)
    requires d > 0 && k < p * d
    ensures k / d < p
  {
    if k / d >= p {
      MulMono(p, k / d, d);
    }
  }

  /** Offsets of distinct full indices are distinct: decomposing the offset of
      a full index gives back that index. */
  lemma {:induction false} UnravelRavel(shape: seq<nat>, idx: seq<nat>)
    requires Positive(shape) && IsFullIndex(idx, shape)
    ensures Unravel(shape, Dot(idx, StridesFor(shape))) == idx
  {
    if |shape| > 0 {
      var n := |shape|;
      var front, d := shape[..n - 1], shape[n - 1];
      var ifront, x := idx[..n - 1], idx[n - 1];
      assert shape == front + [d];
      assert idx == ifront + [x];
      assert Positive(front) by {
        forall i | 0 <= i < n - 1 ensures front[i] > 0 { assert front[i] == shape[i]; }
      }
      assert IsFullIndex(ifront, front) by {
        forall i | 0 <= i < n - 1 ensures ifront[i] < front[i] { assert ifront[i] == idx[i]; }
      }
      DotSnoc(ifront, x, front, d);
      var inner := Dot(ifront, StridesFor(front));
      DivModUnique(inner, d, x);
      UnravelRavel(front, ifront);
    }
  }

  /** The positions addressed by full indices of a shape are exactly
      0 .. Product(shape)-1, each addressed by one index only: row-major
      strides describe a contiguous layout. */
  lemma Contiguous(shape: seq<nat>)
    ensures forall idx :: IsFullIndex(idx, shape) ==> Dot(idx, StridesFor(shape)) < Product(shape)
    ensures Product(shape) > 0 ==> Positive(shape)
    ensures Positive(shape) ==> forall p: nat :: p < Product(shape) ==>
      IsFullIndex(Unravel(shape, p), shape) && Dot(Unravel(shape, p), StridesFor(shape)) == p
    ensures forall i1, i2 ::
      (IsFullIndex(i1, shape) && IsFullIndex(i2, shape) &&
       Dot(i1, StridesFor(shape)) == Dot(i2, StridesFor(shape))) ==> i1 == i2
  {
    forall idx | IsFullIndex(idx, shape) ensures Dot(idx, StridesFor(shape)) < Product(shape) {
      FullIndexBelowSize(shape, idx);
    }
    ProductPositive(shape);
    if Positive(shape) {
      forall p: nat | p < Product(shape)
        ensures Dot(Unravel(shape, p), StridesFor(shape)) == p
      {
        RavelUnravel(shape, p);
      }
    }
    forall i1, i2 | IsFullIndex(i1, shape) && IsFullIndex(i2, shape) &&
      Dot(i1, StridesFor(shape)) == Dot(i2, StridesFor(shape))
      ensures i1 == i2
    {
      FullIndexBelowSize(shape, i1);
      ProductPositive(shape);
      UnravelRavel(shape, i1);
      UnravelRavel(shape, i2);
    }
  }
}
