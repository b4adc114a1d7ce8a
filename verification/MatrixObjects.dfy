/** Matrix objects (pb_type_matrix): results of arithmetic own new storage, scaled and transposed copies share it. */
module MatrixObjects {
  import opened Words
  import opened MatrixViews

  /** A matrix, or a plain number where the result is 1 by 1, or an error for mismatched dimensions. */
  datatype Result = IsMatrixObject(matrix: Matrix) | IsNumber(x: real) | InvalidArg

  predicate SameFetch(x: Option<real>, y: Option<real>) {
    x.Some? == y.Some? && (x.Some? ==> x.value == y.value)
  }

  class Matrix {
    const data: array<real>
    const scale: real
    const m: nat
    const n: nat
    const transposed: bool

    constructor (data: array<real>, scale: real, m: nat, n: nat, transposed: bool)
      ensures this.data == data && this.scale == scale && this.m == m && this.n == n && this.transposed == transposed
    {
      this.data, this.scale, this.m, this.n, this.transposed := data, scale, m, n, transposed;
    }

    function Value(): View
      reads data
    {
      View(data[..], scale, m, n, transposed)
    }

    ghost predicate Valid()
      reads data
    {
      IsMatrix(Value())
    }

    /** pb_type_Matrix__T. */
    method Transpose() returns (copy: Matrix)
      requires Valid()
      ensures fresh(copy) && copy.data == data && copy.Value() == T(Value())
    {
      copy := new Matrix(data, scale, n, m, !transposed);
    }

    /** pb_type_Matrix__scale. */
    method ScaleBy(s: real) returns (copy: Matrix)
      requires Valid()
      ensures fresh(copy) && copy.data == data && copy.Value() == Scale(Value(), s)
    {
      copy := new Matrix(data, scale * s, m, n, transposed);
    }

    /** The stored value of an entry, with the index arithmetic of pb_type_Matrix__mul. */
    method RawAt(r: nat, c: nat) returns (x: real)
      requires Valid() && r < m && c < n
      ensures IsStoredAt(Value(), r, c, x)
    {
      IndexOk(Value(), r, c);
      x := data[if transposed then c * m + r else r * n + c];
    }

    /** pb_type_Matrix_get_scalar. */
    method GetScalar(r: nat, c: nat) returns (x: Option<real>)
      requires Valid()
      ensures if r < m && c < n then Gives(x, At(Value(), r, c)) else x == None
    {
      if r >= m || c >= n {
        return None;
      }
      IndexOk(Value(), r, c);
      var idx := if transposed then c * m + r else r * n + c;
      x := Some(data[idx] * scale);
    }

    /** pb_type_Matrix_subscr with an integer. */
    method SubscriptFlat(index: int) returns (x: Option<real>)
      requires Valid() && Addressable(Value()) && IsInt32(index)
      ensures SameFetch(x, Fetch(Value(), FlatPosition(Value(), index)))
    {
      var len := m * n;
      var idx := index;
      if idx < 0 {
        idx := idx + len;
      }
      if transposed {
        var u := Wrap(idx);
        var product := Wrap((u % n) * m);
        WrapOfWrap((u % n) * m, u / n);
        idx := ToSigned(Wrap(product + u / n));
      }
      x := ReadPosition(idx);
    }

    /** The end of pb_type_Matrix_subscr: the value at a storage position; None stands for IndexError. */
    method ReadPosition(idx: int) returns (x: Option<real>)
      requires Valid()
      ensures SameFetch(x, Fetch(Value(), idx))
    {
      var len := data.Length;
      if idx < 0 || idx >= len {
        return None;
      }
      x := Some(scale * data[idx]);
    }

    /** pb_type_Matrix_subscr with a pair of integers. */
    method SubscriptPair(row: int, col: int) returns (x: Option<real>)
      requires Valid()
      ensures SameFetch(x, Fetch(Value(), PairPosition(Value(), row, col)))
    {
      var idx := -1;
      var r, c := row, col;
      if r < 0 {
        r := r + m;
      }
      if c < 0 {
        c := c + n;
      }
      if c >= 0 && r >= 0 && c < n && r < m {
        IndexOk(Value(), r, c);
        idx := if transposed then c * m + r else r * n + c;
      }
      assert idx == PairPosition(Value(), row, col);
      x := ReadPosition(idx);
    }
  }

  /** One entry of a sum or difference, with the index arithmetic of pb_type_Matrix__add. */
  method AddEntry(lhs: Matrix, rhs: Matrix, add: bool, r: nat, c: nat) returns (x: real)
    requires lhs.Valid() && rhs.Valid() && lhs.m == rhs.m && lhs.n == rhs.n && r < lhs.m && c < lhs.n
    ensures x == SumAt(lhs.Value(), rhs.Value(), add, r, c)
  {
    IndexOk(lhs.Value(), r, c);
    IndexOk(rhs.Value(), r, c);
    var idx := r * lhs.n + c;
    var a := lhs.data[if lhs.transposed then c * lhs.m + r else idx];
    var b := rhs.data[if rhs.transposed then c * lhs.m + r else idx];
    x := if add then a * lhs.scale + b * rhs.scale else a * lhs.scale - b * rhs.scale;
  }

  /** pb_type_Matrix__add: sum or difference of the entries as seen, in new storage. */
  method Add(lhs: Matrix, rhs: Matrix, add: bool) returns (r: Result)
    requires lhs.Valid() && rhs.Valid()
    ensures r.InvalidArg? <==> lhs.m != rhs.m || lhs.n != rhs.n
    ensures !r.InvalidArg? ==>
        r.IsMatrixObject? && fresh(r.matrix.data) && IsSum(r.matrix.Value(), lhs.Value(), rhs.Value(), add)
  {
    if lhs.n != rhs.n || lhs.m != rhs.m {
      return InvalidArg;
    }
    ghost var a, b := lhs.Value(), rhs.Value();
    ghost var f := (i: nat, j: nat) => SumAt(a, b, add, i, j);
    var data := FillSum(lhs, rhs, add, f);
    var ret := new Matrix(data, 1.0, lhs.m, lhs.n, false);
    StoredAt(f, 1.0, lhs.m, lhs.n);
    assert ret.Value() == Stored(f, 1.0, lhs.m, lhs.n);
    r := IsMatrixObject(ret);
  }

  /** The loops of pb_type_Matrix__add over rows and columns. */
  method FillSum(lhs: Matrix, rhs: Matrix, add: bool, ghost f: (nat, nat) -> real) returns (data: array<real>)
    requires lhs.Valid() && rhs.Valid() && lhs.m == rhs.m && lhs.n == rhs.n
    requires forall i: nat, j: nat :: i < lhs.m && j < lhs.n ==> f(i, j) == SumAt(lhs.Value(), rhs.Value(), add, i, j)
    ensures fresh(data) && data.Length == lhs.m * lhs.n && data[..] == Filled(f, lhs.n, lhs.m, 0)
  {
    ghost var a, b := lhs.Value(), rhs.Value();
    data := new real[lhs.m * lhs.n](_ => 0.0);
    for i := 0 to lhs.m
      invariant i * lhs.n <= data.Length && data[..i * lhs.n] == Filled(f, lhs.n, i, 0)
      invariant lhs.Value() == a && rhs.Value() == b
    {
      NextRow(i, lhs.m, lhs.n);
      FillSumRow(lhs, rhs, add, data, i, i * lhs.n, f);
    }
  }

  /** The inner loop: one row behind the entries already there. */
  method FillSumRow(lhs: Matrix, rhs: Matrix, add: bool, data: array<real>, i: nat, row: nat,
                    ghost f: (nat, nat) -> real)
    requires lhs.Valid() && rhs.Valid() && lhs.m == rhs.m && lhs.n == rhs.n && i < lhs.m
    requires data != lhs.data && data != rhs.data && row + lhs.n <= data.Length
    requires forall j: nat :: j < lhs.n ==> f(i, j) == SumAt(lhs.Value(), rhs.Value(), add, i, j)
    requires data[..row] == Filled(f, lhs.n, i, 0)
    modifies data
    ensures data[..row + lhs.n] == Filled(f, lhs.n, i, lhs.n)
  {
    ghost var a, b := lhs.Value(), rhs.Value();
    for j := 0 to lhs.n
      invariant data[..row + j] == Filled(f, lhs.n, i, j)
      invariant lhs.Value() == a && rhs.Value() == b
    {
      var x := AddEntry(lhs, rhs, add, i, j);
      assert x == f(i, j);
      data[row + j] := x;
      assert data[..row + j + 1] == data[..row + j] + [f(i, j)];
    }
  }

  /** A row lies within the storage and the next one starts where it ends. */
  lemma NextRow(i: nat, m: nat, n: nat)
    requires i < m
    ensures i * n + n == (i + 1) * n <= m * n
  {
    MultiplyMonotone(i + 1, m, n);
  }

  /** One entry of a product before scaling: the inner loop of pb_type_Matrix__mul. */
  method InnerProduct(lhs: Matrix, rhs: Matrix, r: nat, c: nat) returns (sum: real)
    requires lhs.Valid() && rhs.Valid() && lhs.n == rhs.m && r < lhs.m && c < rhs.n
    ensures sum == RawDot(lhs.Value(), rhs.Value(), r, c, lhs.n)
  {
    ghost var a, b := lhs.Value(), rhs.Value();
    assert RawDot(a, b, r, c, 0) == 0.0;
    hide RawDot, Index, IsStoredAt;
    sum := 0.0;
    for k := 0 to lhs.n
      invariant sum == RawDot(a, b, r, c, k)
    {
      var x := lhs.RawAt(r, k);
      var y := rhs.RawAt(k, c);
      RawDotNext(a, b, r, c, k, x, y);
      sum := sum + x * y;
    }
  }

  /** The loops of pb_type_Matrix__mul over rows and columns. */
  method FillProduct(lhs: Matrix, rhs: Matrix, ghost f: (nat, nat) -> real) returns (data: array<real>)
    requires lhs.Valid() && rhs.Valid() && lhs.n == rhs.m
    requires forall i: nat, j: nat :: i < lhs.m && j < rhs.n ==>
        f(i, j) == RawDot(lhs.Value(), rhs.Value(), i, j, lhs.n)
    ensures fresh(data) && data.Length == lhs.m * rhs.n && data[..] == Filled(f, rhs.n, lhs.m, 0)
  {
    ghost var a, b := lhs.Value(), rhs.Value();
    var n := rhs.n;
    data := new real[lhs.m * n](_ => 0.0);
    for i := 0 to lhs.m
      invariant i * n <= data.Length && data[..i * n] == Filled(f, n, i, 0)
      invariant lhs.Value() == a && rhs.Value() == b
    {
      NextRow(i, lhs.m, n);
      var row := i * n;
      for j := 0 to n
        invariant data[..row + j] == Filled(f, n, i, j)
        invariant lhs.Value() == a && rhs.Value() == b
      {
        data[row + j] := InnerProduct(lhs, rhs, i, j);
        assert data[..row + j + 1] == data[..row + j] + [f(i, j)];
      }
    }
  }

  /** pb_type_Matrix__mul: the textbook product of the entries as seen; a 1 by 1 result is a number. */
  method Multiply(lhs: Matrix, rhs: Matrix) returns (r: Result)
    requires lhs.Valid() && rhs.Valid()
    ensures r.InvalidArg? <==> lhs.n != rhs.m
    ensures lhs.n == rhs.m && lhs.m == rhs.n == 1 ==> r.IsNumber? && r.x == Dot(lhs.Value(), rhs.Value(), 0, 0, lhs.n)
    ensures lhs.n == rhs.m && !(lhs.m == rhs.n == 1) ==>
              r.IsMatrixObject? && fresh(r.matrix.data) && IsProduct(r.matrix.Value(), lhs.Value(), rhs.Value())
  {
    if lhs.n != rhs.m {
      return InvalidArg;
    }
    var ret := Product(lhs, rhs);
    if lhs.m == 1 && rhs.n == 1 {
      OneByOne(ret.Value(), lhs.Value(), rhs.Value());
      return IsNumber(ret.data[0] * ret.scale);
    }
    r := IsMatrixObject(ret);
  }

  /** The product as an object: raw inner products in new storage, with the scales multiplied separately. */
  method Product(lhs: Matrix, rhs: Matrix) returns (ret: Matrix)
    requires lhs.Valid() && rhs.Valid() && lhs.n == rhs.m
    ensures fresh(ret) && fresh(ret.data) && IsProduct(ret.Value(), lhs.Value(), rhs.Value())
  {
    ghost var a, b := lhs.Value(), rhs.Value();
    ghost var f := (i: nat, j: nat) => if i < a.m && j < b.n then RawDot(a, b, i, j, a.n) else 0.0;
    var data := FillProduct(lhs, rhs, f);
    ret := new Matrix(data, lhs.scale * rhs.scale, lhs.m, rhs.n, false);
    assert ret.Value() == Stored(f, a.scale * b.scale, a.m, b.n);
    StoredIsProduct(a, b, f);
  }

  lemma OneByOne(x: View, a: View, b: View)
    requires IsProduct(x, a, b) && x.m == x.n == 1
    ensures |x.data| == 1 && x.data[0] * x.scale == Dot(a, b, 0, 0, a.n)
  {
    assert x.data[0] * x.scale == At(x, 0, 0);
  }

  lemma StoredIsProduct(a: View, b: View, f: (nat, nat) -> real)
    requires IsMatrix(a) && IsMatrix(b) && a.n == b.m
    requires forall i: nat, j: nat :: i < a.m && j < b.n ==> f(i, j) == RawDot(a, b, i, j, a.n)
    ensures IsProduct(Stored(f, a.scale * b.scale, a.m, b.n), a, b)
  {
    hide Dot, RawDot, At;
    StoredAt(f, a.scale * b.scale, a.m, b.n);
    forall i: nat, j: nat | i < a.m && j < b.n
      ensures At(Stored(f, a.scale * b.scale, a.m, b.n), i, j) == Dot(a, b, i, j, a.n)
    {
      RawDotScaled(a, b, i, j, a.n);
    }
  }

  /** Every row has the length of the first, which is not empty. */
  predicate Rectangular(rows: seq<seq<real>>) {
    rows != [] && rows[0] != [] && forall i :: 0 <= i < |rows| ==> |rows[i]| == |rows[0]|
  }

  /** pb_type_Matrix_make_new from rows of numbers. */
  method MakeNew(rows: seq<seq<real>>) returns (r: Result)
    ensures r.InvalidArg? <==> !Rectangular(rows)
    ensures Rectangular(rows) && |rows| == |rows[0]| == 1 ==> r == IsNumber(rows[0][0])
    ensures Rectangular(rows) && !(|rows| == |rows[0]| == 1) ==>
              && r.IsMatrixObject? && fresh(r.matrix.data) && r.matrix.Valid()
              && r.matrix.m == |rows| && r.matrix.n == |rows[0]|
              && forall i: nat, j: nat :: i < |rows| && j < |rows[0]| ==> At(r.matrix.Value(), i, j) == rows[i][j]
  {
    if rows == [] || rows[0] == [] {
      return InvalidArg;
    }
    var m, n := |rows|, |rows[0]|;
    if m == 1 && n == 1 {
      return IsNumber(rows[0][0]);
    }
    ghost var f := (i: nat, j: nat) => if i < |rows| && j < |rows[i]| then rows[i][j] else 0.0;
    var data, ok := FillRows(rows, f);
    if !ok {
      return InvalidArg;
    }
    var ret := new Matrix(data, 1.0, m, n, false);
    StoredAt(f, 1.0, m, n);
    assert ret.Value() == Stored(f, 1.0, m, n);
    r := IsMatrixObject(ret);
  }

  /** The loops of pb_type_Matrix_make_new; stops at the first row of another length. */
  method FillRows(rows: seq<seq<real>>, ghost f: (nat, nat) -> real) returns (data: array<real>, ok: bool)
    requires rows != [] && rows[0] != []
    requires forall i: nat, j: nat :: i < |rows| && j < |rows[i]| ==> f(i, j) == rows[i][j]
    ensures fresh(data) && data.Length == |rows| * |rows[0]|
    ensures ok <==> Rectangular(rows)
    ensures ok ==> data[..] == Filled(f, |rows[0]|, |rows|, 0)
  {
    var m, n := |rows|, |rows[0]|;
    data := new real[m * n](_ => 0.0);
    for i := 0 to m
      invariant i * n <= data.Length && data[..i * n] == Filled(f, n, i, 0)
      invariant forall k :: 0 <= k < i ==> |rows[k]| == n
    {
      if |rows[i]| != n {
        return data, false;
      }
      NextRow(i, m, n);
      var row := i * n;
      for j := 0 to n
        invariant data[..row + j] == Filled(f, n, i, j)
      {
        data[row + j] := rows[i][j];
        assert data[..row + j + 1] == data[..row + j] + [f(i, j)];
      }
    }
    ok := true;
  }
}
