/** Elementwise arithmetic and comparison over the contiguous element ranges
    of views. The in-place operators transform the left operand's range,
    the others fill a freshly allocated array of the left operand's shape.
    Each is stated against a value-level description on sequences. */
module NdArrayMath {
  import opened Results
  import opened Shapes
  import opened NdArrays

  datatype ArithOp = Add | Sub

  function Apply(op: ArithOp, l: int, r: int): int
  {
    match op
    case Add => l + r
    case Sub => l - r
  }

  /** The elementwise combination of two equally long sequences. */
  function Zip(op: ArithOp, x: seq<int>, y: seq<int>): (z: seq<int>)
    requires |x| == |y|
    ensures |z| == |x|
  {
    seq(|x|, k requires 0 <= k < |x| => Apply(op, x[k], y[k]))
  }

  /** n copies of v: a scalar operand spread over a range. */
  function Fill(n: nat, v: int): (z: seq<int>)
    ensures |z| == n
  {
    seq(n, _ => v)
  }

  function Negated(x: seq<int>): (z: seq<int>)
    ensures |z| == |x|
  {
    seq(|x|, k requires 0 <= k < |x| => -x[k])
  }

  // ---------------------------------------------------------------------
  // Laws of the value-level operations

  /** Subtracting what was added gives back the original: a += b; a -= b. */
  lemma SubUndoesAdd(x: seq<int>, y: seq<int>)
    requires |x| == |y|
    ensures Zip(Sub, Zip(Add, x, y), y) == x
  {
    var z := Zip(Sub, Zip(Add, x, y), y);
    assert forall k :: 0 <= k < |x| ==> z[k] == x[k];
  }

  lemma AddCommutes(x: seq<int>, y: seq<int>)
    requires |x| == |y|
    ensures Zip(Add, x, y) == Zip(Add, y, x)
  {
    assert forall k :: 0 <= k < |x| ==> Zip(Add, x, y)[k] == Zip(Add, y, x)[k];
  }

  /** Zeros are neutral for addition: a zero array after += a holds a. */
  lemma ZeroPlus(x: seq<int>)
    ensures Zip(Add, Fill(|x|, 0), x) == x
  {
    var z := Zip(Add, Fill(|x|, 0), x);
    assert forall k :: 0 <= k < |x| ==> z[k] == x[k];
  }

  /** Subtracting a scalar undoes adding it. */
  lemma ScalarShiftRoundTrip(x: seq<int>, s: int)
    ensures Zip(Sub, Zip(Add, x, Fill(|x|, s)), Fill(|x|, s)) == x
  {
    SubUndoesAdd(x, Fill(|x|, s));
  }

  /** Unary minus is subtraction from zero, and applying it twice is the identity. */
  lemma NegatedLaws(x: seq<int>)
    ensures Negated(x) == Zip(Sub, Fill(|x|, 0), x)
    ensures Negated(Negated(x)) == x
  {
    assert forall k :: 0 <= k < |x| ==> Negated(x)[k] == Zip(Sub, Fill(|x|, 0), x)[k];
    assert forall k :: 0 <= k < |x| ==> Negated(Negated(x))[k] == x[k];
  }

  /** The scalar-minus-array operator as written computes a - s, which is the
      negation of the intended s - a: the two agree only where a[k] == s. */
  lemma ScalarMinusAsWrittenIsNegation(x: seq<int>, s: int)
    ensures Zip(Sub, x, Fill(|x|, s)) == Negated(Zip(Sub, Fill(|x|, s), x))
    ensures Zip(Sub, x, Fill(|x|, s)) == Zip(Sub, Fill(|x|, s), x) <==>
      forall k :: 0 <= k < |x| ==> x[k] == s
  {
    var w, c := Zip(Sub, x, Fill(|x|, s)), Zip(Sub, Fill(|x|, s), x);
    assert forall k :: 0 <= k < |x| ==> w[k] == Negated(c)[k];
    if w == c {
      forall k | 0 <= k < |x| ensures x[k] == s {
        assert w[k] == c[k];
      }
    }
  }

  /** The smallest witness: 1 - [0] yields [-1] instead of [1]. */
  lemma ScalarMinusAsWrittenCounterexample()
    ensures Zip(Sub, [0], Fill(1, 1)) == [-1]
    ensures Zip(Sub, Fill(1, 1), [0]) == [1]
  {
  }

  // ---------------------------------------------------------------------
  // Shape checks

  /** The binary operators' shape check as written: std::equal over the
      extents of the first shape only, reading the second shape from its
      start. It succeeds when the first shape is a prefix of the second (a
      shorter second shape would be read past its end, counted here as a
      mismatch). */
  predicate ShapeCheckAsWritten(s1: seq<nat>, s2: seq<nat>): (r: bool)
    ensures r <==> |s1| <= |s2| && forall i :: 0 <= i < |s1| ==> s1[i] == s2[i]
  {
    assert |s1| <= |s2| ==> forall i :: 0 <= i < |s1| ==> s2[..|s1|][i] == s2[i];
    |s1| <= |s2| && s1 == s2[..|s1|]
  }

  /** On shapes of equal rank the check as written is exact equality. */
  lemma ShapeCheckSameRank(s1: seq<nat>, s2: seq<nat>)
    requires |s1| == |s2|
    ensures ShapeCheckAsWritten(s1, s2) <==> s1 == s2
  {
    assert s2[..|s2|] == s2;
  }

  /** The check as written lets (2) against (2, 0) through: the second operand
      has no elements at all while the first has two, so the transform reads
      two elements past the end of the second range. */
  lemma ShapeCheckAsWrittenCounterexample()
    ensures ShapeCheckAsWritten([2], [2, 0])
    ensures |[2]| != |[2, 0]|
    ensures Product([2]) == 2 && Product([2, 0]) == 0
  {
    assert [2, 0][..1] == [2];
  }

  /** The corrected check, exact shape equality, guarantees that both ranges
      have the same length, so every read of the second operand stays in its
      range. */
  lemma ShapesMatchSameSize(a: NdArray, b: NdArray)
    requires a.Valid() && b.Valid() && a.shape == b.shape
    ensures a.size == b.size && b.offset + a.size <= b.data.Length
  {
  }

  // ---------------------------------------------------------------------
  // In-place operators

  /** The second operand's read at step k, for a first operand at o1 and a
      second at o2, never reaches an element the loop has already written,
      unless the two ranges share a buffer and the second range starts before
      the first one and reaches into it. */
  predicate NoBackwardOverlap(first: NdArray, second: NdArray)
    reads first, second
  {
    first.data != second.data || second.offset >= first.offset ||
    second.offset + second.size <= first.offset
  }

  /** The two ranges share no element. */
  predicate Disjoint(first: NdArray, second: NdArray)
    reads first, second
  {
    first.data != second.data || first.offset + first.size <= second.offset ||
    second.offset + second.size <= first.offset
  }

  /** std::transform(first.begin(), first.end(), second.begin(), first.begin(), op):
      step k replaces the first range's k-th element by its combination with
      the second range's k-th element as it is at that moment. When the ranges
      share a buffer and the second starts before the first, that element may
      already hold a result; otherwise the result is the elementwise
      combination of the old contents. Elements outside the first range do
      not change. */
  method TransformInPlace(first: NdArray, second: NdArray, op: ArithOp) returns (r: Outcome)
    requires first.Valid() && second.Valid()
    modifies first.data
    ensures r.Pass? <==> first.shape == second.shape
    ensures r.Fail? ==> r.error == ShapeMismatch && first.data[..] == old(first.data[..])
    ensures r.Pass? ==> forall p :: 0 <= p < first.data.Length && !(first.offset <= p < first.offset + first.size) ==>
      first.data[p] == old(first.data[p])
    ensures r.Pass? ==> forall p :: first.offset <= p < first.offset + first.size ==>
      var q := second.offset + (p - first.offset);
      first.data[p] ==
        Apply(op, old(first.data[p]),
              if first.data == second.data && first.offset <= q < p then first.data[q]
              else old(second.data[q]))
    ensures r.Pass? && NoBackwardOverlap(first, second) ==>
      first.Contents() == Zip(op, old(first.Contents()), old(second.Contents()))
    ensures r.Pass? && Disjoint(first, second) ==> second.Contents() == old(second.Contents())
  {
    if first.shape != second.shape {
      return Fail(ShapeMismatch);
    }
    TransformRange(first.data, first.offset, second.data, second.offset, first.size, op);
    if NoBackwardOverlap(first, second) {
      assert forall j :: 0 <= j < first.size ==>
        first.Contents()[j] == Zip(op, old(first.Contents()), old(second.Contents()))[j];
    }
    if Disjoint(first, second) {
      assert forall j :: 0 <= j < second.size ==> second.Contents()[j] == old(second.Contents())[j];
    }
    return Pass;
  }

  /** The loop of std::transform over buf[o1 .. o1 + n) and src[o2 .. o2 + n),
      where buf and src may be the same buffer. */
  method TransformRange(buf: array<int>, o1: nat, src: array<int>, o2: nat, n: nat, op: ArithOp)
    requires o1 + n <= buf.Length && o2 + n <= src.Length
    modifies buf
    ensures forall p :: 0 <= p < buf.Length && !(o1 <= p < o1 + n) ==> buf[p] == old(buf[p])
    ensures forall p :: o1 <= p < o1 + n ==>
      var q := o2 + (p - o1);
      buf[p] == Apply(op, old(buf[p]), if buf == src && o1 <= q < p then buf[q] else old(src[q]))
  {
    var k := 0;
    while k < n
      invariant 0 <= k <= n
      invariant forall p :: 0 <= p < buf.Length && !(o1 <= p < o1 + k) ==> buf[p] == old(buf[p])
      invariant forall p :: o1 <= p < o1 + k ==>
        var q := o2 + (p - o1);
        buf[p] == Apply(op, old(buf[p]), if buf == src && o1 <= q < p then buf[q] else old(src[q]))
    {
      buf[o1 + k] := Apply(op, buf[o1 + k], src[o2 + k]);
      k := k + 1;
    }
  }

  /** operator+= */
  method AddAssign(first: NdArray, second: NdArray) returns (r: Outcome)
    requires first.Valid() && second.Valid()
    modifies first.data
    ensures r.Pass? <==> first.shape == second.shape
    ensures r.Fail? ==> r.error == ShapeMismatch && first.data[..] == old(first.data[..])
    ensures r.Pass? ==> forall p :: 0 <= p < first.data.Length && !(first.offset <= p < first.offset + first.size) ==>
      first.data[p] == old(first.data[p])
    ensures r.Pass? ==> forall p :: first.offset <= p < first.offset + first.size ==>
      var q := second.offset + (p - first.offset);
      first.data[p] ==
        Apply(Add, old(first.data[p]),
              if first.data == second.data && first.offset <= q < p then first.data[q]
              else old(second.data[q]))
    ensures r.Pass? && NoBackwardOverlap(first, second) ==>
      first.Contents() == Zip(Add, old(first.Contents()), old(second.Contents()))
    ensures r.Pass? && Disjoint(first, second) ==> second.Contents() == old(second.Contents())
  {
    r := TransformInPlace(first, second, Add);
  }

  /** operator-= */
  method SubAssign(first: NdArray, second: NdArray) returns (r: Outcome)
    requires first.Valid() && second.Valid()
    modifies first.data
    ensures r.Pass? <==> first.shape == second.shape
    ensures r.Fail? ==> r.error == ShapeMismatch && first.data[..] == old(first.data[..])
    ensures r.Pass? ==> forall p :: 0 <= p < first.data.Length && !(first.offset <= p < first.offset + first.size) ==>
      first.data[p] == old(first.data[p])
    ensures r.Pass? ==> forall p :: first.offset <= p < first.offset + first.size ==>
      var q := second.offset + (p - first.offset);
      first.data[p] ==
        Apply(Sub, old(first.data[p]),
              if first.data == second.data && first.offset <= q < p then first.data[q]
              else old(second.data[q]))
    ensures r.Pass? && NoBackwardOverlap(first, second) ==>
      first.Contents() == Zip(Sub, old(first.Contents()), old(second.Contents()))
    ensures r.Pass? && Disjoint(first, second) ==> second.Contents() == old(second.Contents())
  {
    r := TransformInPlace(first, second, Sub);
  }

  /** a += b; a -= b leaves a as it was when the two ranges share no element. */
  method AddSubRestores(a: NdArray, b: NdArray) returns (r: Outcome)
    requires a.Valid() && b.Valid() && Disjoint(a, b)
    modifies a.data
    ensures r.Pass? <==> a.shape == b.shape
    ensures a.Contents() == old(a.Contents()) && b.Contents() == old(b.Contents())
    ensures a.data[..] == old(a.data[..])
  {
    ghost var before := a.data[..];
    r := AddAssign(a, b);
    if r.Fail? {
      return;
    }
    ghost var mid := a.data[..];
    r := SubAssign(a, b);
    assert r.Pass?;
    SubUndoesAdd(old(a.Contents()), old(b.Contents()));
    RangeAndFrame(before, mid, a.data[..], a.offset, a.size);
  }

  /** Two buffer states that agree on a range, where a third state differs
      from each only inside that range, are equal. */
  lemma RangeAndFrame(s0: seq<int>, s1: seq<int>, s2: seq<int>, o: nat, n: nat)
    requires |s0| == |s1| == |s2| && o + n <= |s0|
    requires forall p :: 0 <= p < |s0| && !(o <= p < o + n) ==> s1[p] == s0[p]
    requires forall p :: 0 <= p < |s0| && !(o <= p < o + n) ==> s2[p] == s1[p]
    requires s2[o..o + n] == s0[o..o + n]
    ensures s2 == s0
  {
    forall p | 0 <= p < |s0| ensures s2[p] == s0[p] {
      if o <= p < o + n {
        assert s2[o..o + n][p - o] == s0[o..o + n][p - o];
      }
    }
  }

  // ---------------------------------------------------------------------
  // Operators that allocate their result

  /** Binary + and - of two arrays: a new array of the first operand's shape
      holding the elementwise combination; neither operand changes. */
  method Binary(first: NdArray, second: NdArray, op: ArithOp) returns (r: Result<NdArray>)
    requires first.Valid() && second.Valid()
    ensures r.Success? <==> first.shape == second.shape
    ensures r.Failure? ==> r.error == ShapeMismatch
    ensures r.Success? ==> fresh(r.value) && fresh(r.value.data) && r.value.Valid()
    ensures r.Success? ==> r.value.shape == first.shape && r.value.offset == 0
    ensures r.Success? ==> r.value.Contents() == Zip(op, first.Contents(), second.Contents())
  {
    if first.shape != second.shape {
      return Failure(ShapeMismatch);
    }
    var result := new NdArray(first.shape);
    var buf := result.data;
    var n := first.size;
    var k := 0;
    while k < n
      invariant 0 <= k <= n
      invariant result.data == buf && buf.Length == n
      invariant result.shape == first.shape && result.strides == first.strides
      invariant result.size == n && result.offset == 0
      invariant forall j :: 0 <= j < k ==>
        buf[j] == Apply(op, first.data[first.offset + j], second.data[second.offset + j])
    {
      buf[k] := Apply(op, first.data[first.offset + k], second.data[second.offset + k]);
      k := k + 1;
    }
    assert forall j :: 0 <= j < n ==>
      result.Contents()[j] == Zip(op, first.Contents(), second.Contents())[j];
    return Success(result);
  }

  /** Array op scalar (a + s, a - s): a new array of the operand's shape with
      s combined into every element. */
  method ScalarRight(first: NdArray, s: int, op: ArithOp) returns (r: NdArray)
    requires first.Valid()
    ensures fresh(r) && fresh(r.data) && r.Valid()
    ensures r.shape == first.shape && r.offset == 0
    ensures r.Contents() == Zip(op, first.Contents(), Fill(first.size, s))
  {
    r := new NdArray(first.shape);
    var buf := r.data;
    var n := first.size;
    var k := 0;
    while k < n
      invariant 0 <= k <= n
      invariant r.data == buf && buf.Length == n
      invariant r.shape == first.shape && r.strides == first.strides
      invariant r.size == n && r.offset == 0
      invariant forall j :: 0 <= j < k ==> buf[j] == Apply(op, first.data[first.offset + j], s)
    {
      buf[k] := Apply(op, first.data[first.offset + k], s);
      k := k + 1;
    }
    assert forall j :: 0 <= j < n ==>
      r.Contents()[j] == Zip(op, first.Contents(), Fill(first.size, s))[j];
  }

  /** s + a, implemented as a + s; addition commutes, so it is s + a[k]. */
  method ScalarPlus(s: int, a: NdArray) returns (r: NdArray)
    requires a.Valid()
    ensures fresh(r) && fresh(r.data) && r.Valid()
    ensures r.shape == a.shape && r.offset == 0
    ensures r.Contents() == Zip(Add, Fill(a.size, s), a.Contents())
  {
    r := ScalarRight(a, s, Add);
    AddCommutes(a.Contents(), Fill(a.size, s));
  }

  /** s - a as written: it returns a - s. */
  method ScalarMinusAsWritten(s: int, a: NdArray) returns (r: NdArray)
    requires a.Valid()
    ensures fresh(r) && fresh(r.data) && r.Valid()
    ensures r.shape == a.shape && r.offset == 0
    ensures r.Contents() == Zip(Sub, a.Contents(), Fill(a.size, s))
    ensures r.Contents() == Negated(Zip(Sub, Fill(a.size, s), a.Contents()))
  {
    r := ScalarRight(a, s, Sub);
    ScalarMinusAsWrittenIsNegation(a.Contents(), s);
  }

  /** s - a as intended: s - a[k] for every element. */
  method ScalarMinus(s: int, a: NdArray) returns (r: NdArray)
    requires a.Valid()
    ensures fresh(r) && fresh(r.data) && r.Valid()
    ensures r.shape == a.shape && r.offset == 0
    ensures r.Contents() == Zip(Sub, Fill(a.size, s), a.Contents())
  {
    r := new NdArray(a.shape);
    var buf := r.data;
    var n := a.size;
    var k := 0;
    while k < n
      invariant 0 <= k <= n
      invariant r.data == buf && buf.Length == n
      invariant r.shape == a.shape && r.strides == a.strides
      invariant r.size == n && r.offset == 0
      invariant forall j :: 0 <= j < k ==> buf[j] == s - a.data[a.offset + j]
    {
      buf[k] := s - a.data[a.offset + k];
      k := k + 1;
    }
    assert forall j :: 0 <= j < n ==>
      r.Contents()[j] == Zip(Sub, Fill(a.size, s), a.Contents())[j];
  }

  /** Unary minus: a new array holding -a[k]. */
  method Negate(a: NdArray) returns (r: NdArray)
    requires a.Valid()
    ensures fresh(r) && fresh(r.data) && r.Valid()
    ensures r.shape == a.shape && r.offset == 0
    ensures r.Contents() == Negated(a.Contents())
  {
    r := new NdArray(a.shape);
    var buf := r.data;
    var n := a.size;
    var k := 0;
    while k < n
      invariant 0 <= k <= n
      invariant r.data == buf && buf.Length == n
      invariant r.shape == a.shape && r.strides == a.strides
      invariant r.size == n && r.offset == 0
      invariant forall j :: 0 <= j < k ==> buf[j] == -a.data[a.offset + j]
    {
      buf[k] := -a.data[a.offset + k];
      k := k + 1;
    }
    assert forall j :: 0 <= j < n ==> r.Contents()[j] == Negated(a.Contents())[j];
  }

  // ---------------------------------------------------------------------
  // Comparison

  /** Two elements are close when their difference is below 1e-12 in
      magnitude; on integers that is equality. */
  predicate Close(l: int, r: int)
  {
    -1 < l - r < 1
  }

  /** std::equal over two ranges of equal length with the closeness test. */
  function AllClose(x: seq<int>, y: seq<int>): (b: bool)
    requires |x| == |y|
    ensures b <==> forall k :: 0 <= k < |x| ==> Close(x[k], y[k])
    ensures b <==> x == y
  {
    if |x| == 0 then true
    else if !Close(x[0], y[0]) then false
    else
      var b := AllClose(x[1..], y[1..]);
      assert forall k :: 1 <= k < |x| ==> x[k] == x[1..][k - 1] && y[k] == y[1..][k - 1];
      assert x == [x[0]] + x[1..] && y == [y[0]] + y[1..];
      b
  }

  /** operator==: a shape mismatch is an error; otherwise true exactly when
      every pair of corresponding elements is close. */
  function Equals(lhs: NdArray, rhs: NdArray): (r: Result<bool>)
    reads lhs, lhs.data, rhs, rhs.data
    requires lhs.Valid() && rhs.Valid()
    ensures r.Success? <==> lhs.shape == rhs.shape
    ensures r.Failure? ==> r.error == ShapeMismatch
    ensures r.Success? ==> (r.value <==> lhs.Contents() == rhs.Contents())
    ensures r.Success? ==> (r.value <==> forall k :: 0 <= k < lhs.size ==>
      Close(lhs.Contents()[k], rhs.Contents()[k]))
  {
    if lhs.shape != rhs.shape then Failure(ShapeMismatch)
    else Success(AllClose(lhs.Contents(), rhs.Contents()))
  }

  /** Every array equals itself. */
  lemma EqualsReflexive(a: NdArray)
    requires a.Valid()
    ensures Equals(a, a) == Success(true)
  {
  }

  /** A fresh zero array of a's shape, after += a, equals a. */
  method ZeroPlusEquals(a: NdArray) returns (r: Result<bool>)
    requires a.Valid()
    ensures r == Success(true)
  {
    var z := new NdArray(a.shape);
    var ok := AddAssign(z, a);
    assert ok.Pass?;
    ZeroPlus(a.Contents());
    r := Equals(z, a);
  }
}
