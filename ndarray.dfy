/** The strided view: shape, strides, element count and offset over one shared
    element buffer. Slicing, copy construction and reshape make new views over
    the same buffer, so a write through one view is seen through every view
    that covers the same element. */
module NdArrays {
  import opened Results
  import opened Shapes

  class NdArray {
    var shape: seq<nat>
    var strides: seq<nat>
    var size: nat
    var offset: nat
    var data: array<int>

    /** The invariant every constructor and operation keeps: row-major strides,
        the element count of the shape, and a range inside the buffer. */
    ghost predicate Valid()
      reads this
    {
      strides == StridesFor(shape) && size == Product(shape) && offset + size <= data.Length
    }

    function Dim(): nat
      reads this
    {
      |shape|
    }

    /** The contiguous element range [begin(), end()) = [offset, offset + size). */
    function Contents(): seq<int>
      reads this, data
      requires Valid()
    {
      data[offset..offset + size]
    }

    /** Construction from a shape: a fresh buffer of Product(shape) elements,
        all zero, viewed from offset 0. */
    constructor (shape: seq<nat>)
      ensures Valid() && fresh(data)
      ensures this.shape == shape && offset == 0 && data.Length == size
      ensures Contents() == seq(size, _ => 0)
    {
      this.shape := shape;
      var str := StridesForShape(shape);
      strides := str;
      size := Product(shape);
      offset := 0;
      data := new int[Product(shape)];
      new;
      SetValue(0);
    }

    /** Copy construction: the same shape, strides, size and offset over the
        same buffer, so the new view aliases rhs. */
    constructor Alias(rhs: NdArray)
      requires rhs.Valid()
      ensures Valid()
      ensures shape == rhs.shape && strides == rhs.strides && size == rhs.size
      ensures offset == rhs.offset && data == rhs.data
    {
      shape, strides, size, offset, data := rhs.shape, rhs.strides, rhs.size, rhs.offset, rhs.data;
    }

    /** The slice constructor once its indices are known to be in range; Slice
        below performs the checks. */
    constructor SliceOf(parent: NdArray, idx: seq<nat>)
      requires parent.Valid() && InRange(idx, parent.shape)
      ensures Valid() && data == parent.data
      ensures shape == parent.shape[|idx|..]
      ensures offset == parent.offset + Dot(idx, parent.strides)
    {
      var sub := GetShape(parent.shape, idx).value;
      shape := sub;
      var str := StridesForShape(sub);
      strides := str;
      size := Product(sub);
      offset := parent.offset + Dot(idx, parent.strides);
      data := parent.data;
      DotBound(parent.shape, idx);
    }

    /** Slicing by leading indices: a view of the remaining axes over the same
        buffer, starting at the element the indices select. Too many indices is
        a dimension error and an index past its extent an index error. */
    static method Slice(parent: NdArray, idx: seq<nat>) returns (r: Result<NdArray>)
      requires parent.Valid()
      ensures r.Success? <==> InRange(idx, parent.shape)
      ensures r.Failure? ==> r.error == (if |idx| > |parent.shape| then DimensionMismatch else IndexOutOfRange)
      ensures r.Success? ==> fresh(r.value) && r.value.Valid() && r.value.data == parent.data
      ensures r.Success? ==> r.value.shape == parent.shape[|idx|..]
      ensures r.Success? ==> r.value.offset == parent.offset + Dot(idx, parent.strides)
      ensures r.Success? ==> parent.offset <= r.value.offset
      ensures r.Success? ==> r.value.offset + r.value.size <= parent.offset + parent.size
    {
      var sub := GetShape(parent.shape, idx);
      if sub.Failure? {
        return Failure(sub.error);
      }
      var v := new NdArray.SliceOf(parent, idx);
      DotBound(parent.shape, idx);
      return Success(v);
    }

    /** operator(): check_dimensions, then the slice constructor. A full index
        gives a zero-dimensional view of one element. */
    method Call(idx: seq<nat>) returns (r: Result<NdArray>)
      requires Valid()
      ensures r.Success? <==> InRange(idx, shape)
      ensures r.Failure? ==> r.error == (if |idx| > |shape| then DimensionMismatch else IndexOutOfRange)
      ensures r.Success? ==> fresh(r.value) && r.value.Valid() && r.value.data == data
      ensures r.Success? ==> r.value.shape == shape[|idx|..]
      ensures r.Success? ==> r.value.offset == offset + Dot(idx, strides)
      ensures r.Success? && |idx| == |shape| ==> r.value.Dim() == 0 && r.value.Contents() == [data[r.value.offset]]
    {
      if |idx| > |shape| {
        return Failure(DimensionMismatch);
      }
      r := Slice(this, idx);
    }

    /** get_index: the offset, relative to the view's origin, of the leading
        indices; it always leaves room for the sub-array they select. */
    function GetIndex(idx: seq<nat>): (r: Result<nat>)
      reads this
      requires Valid()
      ensures r.Success? <==> InRange(idx, shape)
      ensures r.Failure? ==> r.error == (if |idx| > |shape| then DimensionMismatch else IndexOutOfRange)
      ensures r.Success? ==> r.value + Product(shape[|idx|..]) <= size
      ensures r.Success? && |idx| == |shape| ==> r.value < size
    {
      if |idx| > |shape| then Failure(DimensionMismatch)
      else match CheckBounds(shape, idx)
        case Fail(e) => Failure(e)
        case Pass =>
          DotBound(shape, idx);
          assert |idx| == |shape| ==> shape[|idx|..] == [];
          Success(Dot(idx, strides))
    }

    /** ref: the buffer position `offset + get_index(idx)`; the sub-array it
        selects lies inside the view's range. */
    function RefPosition(idx: seq<nat>): (r: Result<nat>)
      reads this
      requires Valid()
      ensures r.Success? <==> InRange(idx, shape)
      ensures r.Success? ==> offset <= r.value && r.value + Product(shape[|idx|..]) <= offset + size
      ensures r.Success? && |idx| == |shape| ==> r.value < offset + size
    {
      match GetIndex(idx)
      case Failure(e) => Failure(e)
      case Success(p) => Success(offset + p)
    }

    /** at: element access that insists on a full index. */
    function At(idx: seq<nat>): (r: Result<int>)
      reads this, data
      requires Valid()
      ensures r.Success? <==> IsFullIndex(idx, shape)
      ensures r == Failure(DimensionMismatch) <==> |idx| != |shape|
      ensures r.Failure? ==> r.error == DimensionMismatch || r.error == IndexOutOfRange
      ensures r.Success? ==> Dot(idx, strides) < size && r.value == Contents()[Dot(idx, strides)]
    {
      if |idx| != |shape| then Failure(DimensionMismatch)
      else match GetIndex(idx)
        case Failure(e) => Failure(e)
        case Success(p) => Success(data[offset + p])
    }

    /** check_zero_dimension then operator T: reading a zero-dimensional view. */
    function AsScalar(): (r: Result<int>)
      reads this, data
      requires Valid()
      ensures r.Success? <==> Dim() == 0
      ensures r.Failure? ==> r.error == NotZeroDimension
      ensures r.Success? ==> Contents() == [r.value]
    {
      if |shape| != 0 then Failure(NotZeroDimension) else Success(data[offset])
    }

    /** operator=(scalar): check_zero_dimension, then write data[offset]. No
        other element of the buffer changes. */
    method Assign(v: int) returns (r: Outcome)
      requires Valid()
      modifies data
      ensures r.Pass? <==> Dim() == 0
      ensures r.Fail? ==> r.error == NotZeroDimension && data[..] == old(data[..])
      ensures r.Pass? ==> data[..] == old(data[..])[offset := v] && Contents() == [v]
    {
      if |shape| != 0 {
        return Fail(NotZeroDimension);
      }
      data[offset] := v;
      return Pass;
    }

    /** set_value: fill [offset, offset + size) with v, leaving the rest of the
        buffer as it was. */
    method SetValue(v: int)
      requires Valid()
      modifies data
      ensures forall p :: 0 <= p < data.Length ==>
        data[p] == if offset <= p < offset + size then v else old(data[p])
      ensures Contents() == seq(size, _ => v)
    {
      var k := 0;
      while k < size
        invariant 0 <= k <= size
        invariant forall p :: 0 <= p < data.Length ==>
          data[p] == if offset <= p < offset + k then v else old(data[p])
      {
        data[offset + k] := v;
        k := k + 1;
      }
    }

    method SetZero()
      requires Valid()
      modifies data
      ensures forall p :: 0 <= p < data.Length ==>
        data[p] == if offset <= p < offset + size then 0 else old(data[p])
    {
      SetValue(0);
    }

    /** copy: a new array of the same shape over a fresh buffer holding the
        elements of [offset, offset + size). */
    method Copy() returns (c: NdArray)
      requires Valid()
      ensures fresh(c) && fresh(c.data) && c.Valid()
      ensures c.shape == shape && c.offset == 0 && c.data.Length == size
      ensures c.Contents() == Contents()
    {
      c := new NdArray(shape);
      var buf := c.data;
      var k := 0;
      while k < size
        invariant 0 <= k <= size
        invariant c.data == buf && buf.Length == size
        invariant c.shape == shape && c.strides == strides && c.size == size && c.offset == 0
        invariant buf[..k] == data[offset..offset + k]
      {
        buf[k] := data[offset + k];
        k := k + 1;
        assert buf[..k] == buf[..k - 1] + [buf[k - 1]];
      }
      assert buf[..] == buf[..size];
    }

    /** reshape: the same buffer, offset and size under a new shape; fails when
        the element count differs, or (through inplace_reshape) when the view
        does not start at offset 0. */
    method Reshape(newShape: seq<nat>) returns (r: Result<NdArray>)
      requires Valid()
      ensures r.Success? <==> Product(newShape) == size && offset == 0
      ensures r.Failure? ==> r.error == InvalidReshape
      ensures r.Success? ==> fresh(r.value) && r.value.Valid() && r.value.data == data
      ensures r.Success? ==> r.value.shape == newShape && r.value.strides == StridesFor(newShape)
      ensures r.Success? ==> r.value.offset == offset && r.value.size == size
      ensures r.Success? ==> r.value.Contents() == Contents()
    {
      if Product(newShape) != size {
        return Failure(InvalidReshape);
      }
      var result := new NdArray.Alias(this);
      var ok := result.InplaceReshape(newShape);
      if ok.Fail? {
        return Failure(ok.error);
      }
      return Success(result);
    }

    /** inplace_reshape: reject a view with a non-zero offset, otherwise replace
        shape and strides. */
    method InplaceReshape(newShape: seq<nat>) returns (r: Outcome)
      requires Valid() && Product(newShape) == size
      modifies this
      ensures Valid()
      ensures r.Pass? <==> old(offset) == 0
      ensures r.Fail? ==> r.error == InvalidReshape
      ensures data == old(data) && offset == old(offset) && size == old(size)
      ensures r.Pass? ==> shape == newShape && strides == StridesFor(newShape)
      ensures r.Fail? ==> shape == old(shape) && strides == old(strides)
    {
      if offset != 0 {
        return Fail(InvalidReshape);
      }
      shape := newShape;
      var str := StridesForShape(newShape);
      strides := str;
      return Pass;
    }
  }

  /** Every view is contiguous: its full indices address exactly the positions
      offset .. offset + size - 1 of its buffer, each one once. This is what
      makes the range-based copy, set_value and arithmetic sound. */
  lemma ViewContiguous(a: NdArray)
    requires a.Valid()
    ensures forall idx :: IsFullIndex(idx, a.shape) ==>
      a.offset <= a.offset + Dot(idx, a.strides) < a.offset + a.size
    ensures a.size > 0 <==> Positive(a.shape)
    ensures Positive(a.shape) ==> forall p: nat :: p < a.size ==>
      IsFullIndex(Unravel(a.shape, p), a.shape) && a.offset + Dot(Unravel(a.shape, p), a.strides) == a.offset + p
    ensures forall i1, i2 ::
      (IsFullIndex(i1, a.shape) && IsFullIndex(i2, a.shape) &&
       Dot(i1, a.strides) == Dot(i2, a.strides)) ==> i1 == i2
  {
    Contiguous(a.shape);
    ProductPositive(a.shape);
  }

  /** Aliasing: assigning through the zero-dimensional view selected by a full
      index changes the parent's element at that index and nothing else. */
  method AssignThroughSlice(parent: NdArray, idx: seq<nat>, v: int) returns (r: Outcome)
    requires parent.Valid()
    modifies parent.data
    ensures r.Pass? <==> IsFullIndex(idx, parent.shape)
    ensures r.Pass? ==> parent.At(idx) == Success(v)
    ensures r.Pass? ==> parent.data[..] == old(parent.data[..])[parent.offset + Dot(idx, parent.strides) := v]
    ensures r.Fail? ==> parent.data[..] == old(parent.data[..])
  {
    var s := parent.Call(idx);
    if s.Failure? {
      return Fail(s.error);
    }
    var view := s.value;
    if view.Dim() != 0 {
      return Fail(NotZeroDimension);
    }
    assert |idx| == |parent.shape|;
    r := view.Assign(v);
  }
}
