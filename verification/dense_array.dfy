/**
  The pure-Python dense array of `moa/array.py`: a flat list of cells laid out
  in row-major ("row") order behind a shape, read and written through full
  indices. Extents are natural numbers; the flat list is a Dafny array that
  `Set` overwrites in place.
*/
module DenseArray {
  import opened Wrappers
  import opened Errors

  /** The number of cells of an array of this shape. */
  function Product(shape: seq<nat>): nat {
    if shape == [] then 1 else shape[0] * Product(shape[1..])
  }

  lemma {:induction false} ProductSnoc(s: seq<nat>, x: nat)
    ensures Product(s + [x]) == Product(s) * x
  {
    if s != [] {
      assert (s + [x])[1..] == s[1..] + [x];
      ProductSnoc(s[1..], x);
    }
  }

  /** `n` zero cells: the storage of an array created without values. */
  function Zeros(n: nat): (r: seq<int>)
    ensures |r| == n && forall k :: 0 <= k < n ==> r[k] == 0
  {
    seq(n, _ => 0)
  }

  /** Row-major offset: the sum over k of index[k] times the product of shape[k+1..]. */
  function RowMajorOffset(index: seq<int>, shape: seq<nat>): int
    requires |index| == |shape|
  {
    if index == [] then 0
    else index[0] * Product(shape[1..]) + RowMajorOffset(index[1..], shape[1..])
  }

  /** A full index every component of which lies in `0 .. extent - 1`. */
  predicate InBounds(index: seq<int>, shape: seq<nat>) {
    |index| == |shape| && forall k :: 0 <= k < |index| ==> 0 <= index[k] < shape[k]
  }

  /**
    The flat offset `_offset` computes for `index`: `IndexError` for a partial
    or over-long index and for any component at or above its extent. Negative
    components are not checked and give a negative offset.
  */
  function OffsetOf(index: seq<int>, shape: seq<nat>): (r: Result<int, Exception>)
    ensures r.Err? <==> |index| != |shape| || exists k :: 0 <= k < |index| && index[k] >= shape[k]
    ensures r.Err? ==> r.error == IndexError
  {
    if |index| != |shape| then Err(IndexError)
    else if exists k :: 0 <= k < |index| && index[k] >= shape[k] then Err(IndexError)
    else Ok(RowMajorOffset(index, shape))
  }

  lemma {:induction false} RowMajorOffsetBounds(index: seq<int>, shape: seq<nat>)
    requires InBounds(index, shape)
    ensures 0 <= RowMajorOffset(index, shape) < Product(shape)
  {
    if index != [] {
      var p := Product(shape[1..]);
      var rest := RowMajorOffset(index[1..], shape[1..]);
      assert InBounds(index[1..], shape[1..]) by {
        forall k | 0 <= k < |index| - 1 ensures 0 <= index[1..][k] < shape[1..][k] {
          assert index[1..][k] == index[k + 1] && shape[1..][k] == shape[k + 1];
        }
      }
      RowMajorOffsetBounds(index[1..], shape[1..]);
      assert 0 <= index[0] < shape[0];
      assert 0 <= index[0] * p by { MulNonNegative(index[0], p); }
      assert index[0] * p + p <= shape[0] * p by { MulMonotone(index[0] + 1, shape[0], p); }
    }
  }

  lemma MulNonNegative(a: int, b: int)
    requires 0 <= a && 0 <= b
    ensures 0 <= a * b
  {
  }

  lemma MulMonotone(a: int, b: int, c: int)
    requires a <= b && 0 <= c
    ensures a * c <= b * c
  {
  }

  /** An in-bounds index always has an offset, and it addresses a cell of the storage. */
  lemma OffsetInBounds(index: seq<int>, shape: seq<nat>)
    requires InBounds(index, shape)
    ensures OffsetOf(index, shape).Ok?
    ensures 0 <= OffsetOf(index, shape).value < Product(shape)
  {
    RowMajorOffsetBounds(index, shape);
  }

  /** Every extent is positive: the shapes whose offsets can be unravelled. */
  predicate PositiveExtents(shape: seq<nat>) {
    forall k :: 0 <= k < |shape| ==> shape[k] > 0
  }

  lemma {:induction false} ProductPositive(shape: seq<nat>)
    requires PositiveExtents(shape)
    ensures Product(shape) > 0
  {
    if shape != [] {
      assert PositiveExtents(shape[1..]) by {
        forall k | 0 <= k < |shape| - 1 ensures shape[1..][k] > 0 {
          assert shape[1..][k] == shape[k + 1];
        }
      }
      ProductPositive(shape[1..]);
      MulPositive(shape[0], Product(shape[1..]));
    }
  }

  lemma MulPositive(a: int, b: int)
    requires a > 0 && b > 0
    ensures a * b > 0
  {
  }

  /** The full index of a flat offset: the inverse of RowMajorOffset. */
  function Unravel(offset: int, shape: seq<nat>): (r: seq<int>)
    requires PositiveExtents(shape)
    ensures |r| == |shape|
    decreases |shape|
  {
    if shape == [] then []
    else
      assert PositiveExtents(shape[1..]) by {
        forall k | 0 <= k < |shape| - 1 ensures shape[1..][k] > 0 {
          assert shape[1..][k] == shape[k + 1];
        }
      }
      ProductPositive(shape[1..]);
      var p := Product(shape[1..]);
      [offset / p] + Unravel(offset % p, shape[1..])
  }

  lemma DivModOfSum(q: int, p: int, r: int)
    requires 0 <= r < p
    ensures (q * p + r) / p == q && (q * p + r) % p == r
  {
    var x := q * p + r;
    var d := x / p;
    var m := x % p;
    assert x == d * p + m;
    assert (d - q) * p == r - m;
    if d > q {
      MulMonotone(1, d - q, p);
      assert false;
    } else if d < q {
      MulMonotone(1, q - d, p);
      assert false;
    }
  }

  /** Unravelling the offset of an in-bounds index gives the index back. */
  lemma {:induction false} UnravelOffset(index: seq<int>, shape: seq<nat>)
    requires InBounds(index, shape)
    ensures PositiveExtents(shape)
    ensures Unravel(RowMajorOffset(index, shape), shape) == index
  {
    if index != [] {
      assert InBounds(index[1..], shape[1..]) by {
        forall k | 0 <= k < |index| - 1 ensures 0 <= index[1..][k] < shape[1..][k] {
          assert index[1..][k] == index[k + 1] && shape[1..][k] == shape[k + 1];
        }
      }
      UnravelOffset(index[1..], shape[1..]);
      RowMajorOffsetBounds(index[1..], shape[1..]);
      var p := Product(shape[1..]);
      var rest := RowMajorOffset(index[1..], shape[1..]);
      DivModOfSum(index[0], p, rest);
      assert index == [index[0]] + index[1..];
    }
  }

  /** Distinct in-bounds indices never share a cell. */
  lemma OffsetInjective(i: seq<int>, j: seq<int>, shape: seq<nat>)
    requires InBounds(i, shape) && InBounds(j, shape)
    ensures OffsetOf(i, shape) == OffsetOf(j, shape) <==> i == j
  {
    UnravelOffset(i, shape);
    UnravelOffset(j, shape);
  }

  /** Python's `cells[pos]` position: a negative position counts from the end. */
  function PyPosition(pos: int, length: nat): (r: Option<nat>)
    ensures r.Some? <==> -(length as int) <= pos < length
    ensures r.Some? ==> r.value < length && (r.value == pos || r.value == pos + length)
  {
    if 0 <= pos < length then Some(pos)
    else if -(length as int) <= pos < 0 then Some(pos + length)
    else None
  }

  /** `__getitem__` on the storage `cells`. */
  function Read(cells: seq<int>, shape: seq<nat>, index: seq<int>): Result<int, Exception> {
    match OffsetOf(index, shape)
    case Err(e) => Err(e)
    case Ok(offset) =>
      match PyPosition(offset, |cells|)
      case None => Err(IndexError)
      case Some(p) => Ok(cells[p])
  }

  /** `__setitem__` on the storage `cells`: the storage afterwards. */
  function Write(cells: seq<int>, shape: seq<nat>, index: seq<int>, x: int): Result<seq<int>, Exception> {
    match OffsetOf(index, shape)
    case Err(e) => Err(e)
    case Ok(offset) =>
      match PyPosition(offset, |cells|)
      case None => Err(IndexError)
      case Some(p) => Ok(cells[p := x])
  }

  /** A write that succeeds is seen by the next read of the same index. */
  lemma ReadAfterWrite(cells: seq<int>, shape: seq<nat>, index: seq<int>, x: int)
    requires Write(cells, shape, index, x).Ok?
    ensures Read(Write(cells, shape, index, x).value, shape, index) == Ok(x)
  {
  }

  /** A write of an in-bounds index leaves the cell of every other in-bounds index as it was. */
  lemma WriteFrame(cells: seq<int>, shape: seq<nat>, index: seq<int>, other: seq<int>, x: int)
    requires |cells| == Product(shape)
    requires InBounds(index, shape) && InBounds(other, shape) && index != other
    ensures Write(cells, shape, index, x).Ok?
    ensures Read(Write(cells, shape, index, x).value, shape, other) == Read(cells, shape, other)
    ensures Read(cells, shape, other).Ok?
  {
    OffsetInBounds(index, shape);
    OffsetInBounds(other, shape);
    OffsetInjective(index, other, shape);
  }

  /** Every failure of a read is an `IndexError`; with storage of the right size, only a bad index fails. */
  lemma ReadErrors(cells: seq<int>, shape: seq<nat>, index: seq<int>)
    requires |cells| == Product(shape)
    ensures Read(cells, shape, index).Err? ==> Read(cells, shape, index).error == IndexError
    ensures InBounds(index, shape) ==> Read(cells, shape, index).Ok?
    ensures |index| != |shape| ==> Read(cells, shape, index) == Err(IndexError)
  {
    if InBounds(index, shape) {
      OffsetInBounds(index, shape);
    }
  }

  class Array {
    var shape: seq<nat>
    var value: array<int>
    var fmt: string

    ghost predicate Valid()
      reads this
    {
      value.Length == Product(shape)
    }

    constructor (shape: seq<nat>, cells: seq<int>, fmt: string)
      requires |cells| == Product(shape)
      ensures Valid() && this.shape == shape && value[..] == cells && this.fmt == fmt
      ensures fresh(value)
    {
      this.shape := shape;
      this.fmt := fmt;
      value := new int[|cells|](k requires 0 <= k < |cells| => cells[k]);
    }

    /**
      `Array(shape, value, fmt)`: a non-empty `value` must have exactly one
      element per cell, else `ValueError`; a missing or empty `value` gives
      zero cells.
    */
    static method Create(shape: seq<nat>, value: Option<seq<int>>, fmt: string) returns (r: Result<Array, Exception>)
      ensures r.Err? <==> value.Some? && value.value != [] && |value.value| != Product(shape)
      ensures r.Err? ==> r.error == ValueError
      ensures r.Ok? ==> fresh(r.value) && r.value.Valid()
      ensures r.Ok? ==> r.value.shape == shape && r.value.fmt == fmt
      ensures r.Ok? && value.Some? && value.value != [] ==> r.value.value[..] == value.value
      ensures r.Ok? && (value.None? || value.value == []) ==> r.value.value[..] == Zeros(Product(shape))
    {
      var total := 1;
      var i := 0;
      while i < |shape|
        invariant 0 <= i <= |shape|
        invariant total == Product(shape[..i])
      {
        ProductSnoc(shape[..i], shape[i]);
        assert shape[..i + 1] == shape[..i] + [shape[i]];
        total := total * shape[i];
        i := i + 1;
      }
      assert shape[..i] == shape;
      if value.Some? && value.value != [] {
        if total != |value.value| {
          return Err(ValueError);
        }
        var a := new Array(shape, value.value, fmt);
        return Ok(a);
      }
      var a := new Array(shape, Zeros(total), fmt);
      return Ok(a);
    }

    /** `dimension`: the number of axes. */
    function Dimension(): (d: nat)
      reads this
      ensures d == |shape|
    {
      |shape|
    }

    /** `_offset`: accumulates offset and stride from the last axis to the first. */
    method Offset(index: seq<int>) returns (r: Result<int, Exception>)
      ensures r == OffsetOf(index, shape)
    {
      if |index| != |shape| {
        return Err(IndexError);
      }
      var stride := 1;
      var offset := 0;
      var j := |shape|;
      while j > 0
        invariant 0 <= j <= |shape|
        invariant stride == Product(shape[j..])
        invariant offset == RowMajorOffset(index[j..], shape[j..])
        invariant forall k :: j <= k < |shape| ==> index[k] < shape[k]
      {
        j := j - 1;
        if index[j] >= shape[j] {
          return Err(IndexError);
        }
        assert index[j..][1..] == index[j + 1..] && shape[j..][1..] == shape[j + 1..];
        offset := offset + stride * index[j];
        stride := stride * shape[j];
      }
      return Ok(offset);
    }

    /** `a[index]`. */
    method Get(index: seq<int>) returns (r: Result<int, Exception>)
      requires Valid()
      ensures r == Read(value[..], shape, index)
      ensures InBounds(index, shape) ==> r.Ok?
      ensures r.Err? ==> r.error == IndexError
    {
      ReadErrors(value[..], shape, index);
      var o := Offset(index);
      match o
      case Err(e) => return Err(e);
      case Ok(offset) =>
        if 0 <= offset < value.Length {
          return Ok(value[offset]);
        } else if -value.Length <= offset < 0 {
          return Ok(value[offset + value.Length]);
        }
        return Err(IndexError);
    }

    /** `a[index] = x`: overwrites the one cell of `index` in place. */
    method Set(index: seq<int>, x: int) returns (r: Result<(), Exception>)
      requires Valid()
      modifies value
      ensures Valid()
      ensures InBounds(index, shape) ==> r.Ok?
      ensures Write(old(value[..]), shape, index, x).Ok? ==> r.Ok? && value[..] == Write(old(value[..]), shape, index, x).value
      ensures Write(old(value[..]), shape, index, x).Err? ==>
        r.Err? && r.error == Write(old(value[..]), shape, index, x).error && value[..] == old(value[..])
    {
      ReadErrors(value[..], shape, index);
      var o := Offset(index);
      match o
      case Err(e) => return Err(e);
      case Ok(offset) =>
        if 0 <= offset < value.Length {
          value[offset] := x;
          return Ok(());
        } else if -value.Length <= offset < 0 {
          value[offset + value.Length] := x;
          return Ok(());
        }
        return Err(IndexError);
    }
  }

  /** In `Array(shape=(1, 2, 3), value=(1, 2, 3, 4, 5, 6))` the cell `(i, j, k)` is the `3 j + k`-th value. */
  lemma RowMajorCells(i: int, j: int, k: int)
    requires 0 <= i < 1 && 0 <= j < 2 && 0 <= k < 3
    ensures Read([1, 2, 3, 4, 5, 6], [1, 2, 3], [i, j, k]) == Ok(3 * j + k + 1)
  {
    var shape: seq<nat> := [1, 2, 3];
    var index := [i, j, k];
    assert shape[1..] == [2, 3] && shape[2..] == [3] && shape[3..] == [];
    assert index[1..] == [j, k] && index[2..] == [k] && index[3..] == [];
    assert Product(shape[1..]) == 6 by { assert Product([3]) == 3; }
    assert RowMajorOffset([k], [3]) == k by {
      assert Product([]) == 1 && RowMajorOffset([], []) == 0;
    }
    assert RowMajorOffset([j, k], [2, 3]) == 3 * j + k by {
      assert [j, k][1..] == [k] && [2, 3][1..] == [3] && Product([3]) == 3;
    }
    assert RowMajorOffset(index, shape) == 3 * j + k;
    assert OffsetOf(index, shape) == Ok(3 * j + k);
  }

  /** The cells of `Array(shape=(1, 2, 3), value=(1, 2, 3, 4, 5, 6))` read back row by row. */
  lemma RowMajorExample()
    ensures Read([1, 2, 3, 4, 5, 6], [1, 2, 3], [0, 0, 0]) == Ok(1)
    ensures Read([1, 2, 3, 4, 5, 6], [1, 2, 3], [0, 0, 2]) == Ok(3)
    ensures Read([1, 2, 3, 4, 5, 6], [1, 2, 3], [0, 1, 0]) == Ok(4)
    ensures Read([1, 2, 3, 4, 5, 6], [1, 2, 3], [0, 1, 2]) == Ok(6)
  {
    RowMajorCells(0, 0, 0);
    RowMajorCells(0, 0, 2);
    RowMajorCells(0, 1, 0);
    RowMajorCells(0, 1, 2);
  }

  /** An index of the wrong length, or past the end of a dimension, is an `IndexError`. */
  lemma OutOfRangeExample()
    ensures Read([1, 2, 3, 4, 5, 6], [1, 2, 3], [1, 1]) == Err(IndexError)
    ensures Read([1, 2, 3, 4, 5, 6], [1, 2, 3], [1, 1, 1]) == Err(IndexError)
  {
    var shape: seq<nat> := [1, 2, 3];
    assert [1, 1, 1][0] >= shape[0];
  }
}
