/** The matrix-matrix multiplication variants of
    nsd/05cache/code/03_matrix_matrix.cpp over the row-major `CacheMatrix`:
    naive i-k-j, i-j-k, direct buffer access and the tiled product built from
    `Block` and `Tiler`, each against the reference product `Dot` that the
    program's `res != *gold` check relies on: the naive variants and the
    corrected direct one compute it for every shape, the direct one as
    written when `ncol1 == ncol2`, and the tiled one on the cells its full
    tiles cover. */
module MatrixProduct {
  import opened Errors
  import opened Arith
  import opened CacheMatrix

  /** `validate_multiplication`: throws `out_of_range` exactly when the
      inner dimensions disagree. */
  function ValidateMultiplication(a: Matrix, b: Matrix): (e: Option<Error>)
    ensures e.Some? <==> a.ncol != b.nrow
    ensures e.Some? ==> e.value == OutOfRange
  {
    if a.ncol != b.nrow then Some(OutOfRange) else None
  }

  /** `calc_nflo`: the number of multiply-adds of a naive product. */
  function CalcNflo(a: Matrix, b: Matrix): nat {
    a.nrow * a.ncol * b.ncol
  }

  /** The reference: the sum over `j < n` of `a(i, j) * b(j, k)`, accumulated
      in increasing `j`. */
  function Dot(a: Matrix, b: Matrix, i: nat, k: nat, n: nat): int
    requires Valid(a) && Valid(b) && a.ncol == b.nrow
    requires i < a.nrow && k < b.ncol && n <= a.ncol
  {
    if n == 0 then 0 else Dot(a, b, i, k, n - 1) + Get(a, i, n - 1) * Get(b, n - 1, k)
  }

  /** `r` is the `a.nrow x b.ncol` product of `a` and `b`. */
  ghost predicate IsProduct(r: Matrix, a: Matrix, b: Matrix) {
    Valid(a) && Valid(b) && a.ncol == b.nrow
    && Valid(r) && r.nrow == a.nrow && r.ncol == b.ncol
    && forall i: nat, k: nat :: i < a.nrow && k < b.ncol ==> Get(r, i, k) == Dot(a, b, i, k, a.ncol)
  }

  /** Any two results that are the product are the same matrix: the
      program's comparison of each variant against the gold result passes. */
  lemma ProductUnique(r1: Matrix, r2: Matrix, a: Matrix, b: Matrix)
    requires IsProduct(r1, a, b) && IsProduct(r2, a, b)
    ensures r1.nrow == r2.nrow && r1.ncol == r2.ncol && r1.buffer == r2.buffer
  {
    SameElementsSameBuffer(r1, r2);
  }

  /** `multiply_indirect`: for each (i, k), accumulate the dot product over j
      through `operator()`, then store it. */
  method MultiplyIndirect(a: Matrix, b: Matrix) returns (r: Result<Matrix>)
    requires Valid(a) && Valid(b)
    ensures r.Err? <==> a.ncol != b.nrow
    ensures r.Err? ==> r.error == OutOfRange
    ensures r.Ok? ==> IsProduct(r.value, a, b) && r.value.nflo == CalcNflo(a, b)
  {
    var e := ValidateMultiplication(a, b);
    if e.Some? {
      return Err(e.value);
    }
    var ret := New(a.nrow, b.ncol);
    var i: nat := 0;
    while i < a.nrow
      invariant i <= a.nrow
      invariant Valid(ret) && ret.nrow == a.nrow && ret.ncol == b.ncol
      invariant forall i': nat, k': nat :: i' < i && k' < b.ncol ==> Get(ret, i', k') == Dot(a, b, i', k', a.ncol)
    {
      var k: nat := 0;
      while k < b.ncol
        invariant k <= b.ncol
        invariant Valid(ret) && ret.nrow == a.nrow && ret.ncol == b.ncol
        invariant forall i': nat, k': nat :: (i' < i || (i' == i && k' < k)) && k' < b.ncol ==>
          Get(ret, i', k') == Dot(a, b, i', k', a.ncol)
      {
        var v := 0;
        var j: nat := 0;
        while j < a.ncol
          invariant j <= a.ncol && v == Dot(a, b, i, k, j)
        {
          v := v + Get(a, i, j) * Get(b, j, k);
          j := j + 1;
        }
        GetSet(ret, i, k, v);
        ret := Set(ret, i, k, v);
        k := k + 1;
      }
      i := i + 1;
    }
    return Ok(ret.(nflo := CalcNflo(a, b)));
  }

  /** The zero-filling loop `ret(i, j) = 0` of `multiply_indirect_order1`. */
  method ZeroFill(m: Matrix) returns (r: Matrix)
    requires Valid(m)
    ensures Valid(r) && SameShape(r, m)
    ensures forall i: nat, j: nat :: i < m.nrow && j < m.ncol ==> Get(r, i, j) == 0
  {
    r := m;
    var i: nat := 0;
    while i < m.nrow
      invariant i <= m.nrow
      invariant Valid(r) && SameShape(r, m)
      invariant forall i': nat, j': nat :: i' < i && j' < m.ncol ==> Get(r, i', j') == 0
    {
      var j: nat := 0;
      while j < m.ncol
        invariant j <= m.ncol
        invariant Valid(r) && SameShape(r, m)
        invariant forall i': nat, j': nat :: (i' < i || (i' == i && j' < j)) && j' < m.ncol ==> Get(r, i', j') == 0
      {
        GetSet(r, i, j, 0);
        r := Set(r, i, j, 0);
        j := j + 1;
      }
      i := i + 1;
    }
  }

  /** `multiply_indirect_order1`: zero-fill, then loop i, j, k and add
      `a(i, j) * b(j, k)` into `ret(i, k)`. */
  method MultiplyIndirectOrder1(a: Matrix, b: Matrix) returns (r: Result<Matrix>)
    requires Valid(a) && Valid(b)
    ensures r.Err? <==> a.ncol != b.nrow
    ensures r.Err? ==> r.error == OutOfRange
    ensures r.Ok? ==> IsProduct(r.value, a, b) && r.value.nflo == CalcNflo(a, b)
  {
    var e := ValidateMultiplication(a, b);
    if e.Some? {
      return Err(e.value);
    }
    var ret := New(a.nrow, b.ncol);
    ret := ZeroFill(ret);
    var i: nat := 0;
    while i < a.nrow
      invariant i <= a.nrow
      invariant Valid(ret) && ret.nrow == a.nrow && ret.ncol == b.ncol
      invariant forall i': nat, k': nat :: i' < a.nrow && k' < b.ncol ==>
        Get(ret, i', k') == if i' < i then Dot(a, b, i', k', a.ncol) else 0
    {
      var j: nat := 0;
      while j < a.ncol
        invariant j <= a.ncol
        invariant Valid(ret) && ret.nrow == a.nrow && ret.ncol == b.ncol
        invariant forall i': nat, k': nat :: i' < a.nrow && k' < b.ncol ==>
          Get(ret, i', k') == if i' < i then Dot(a, b, i', k', a.ncol) else if i' == i then Dot(a, b, i', k', j) else 0
      {
        var k: nat := 0;
        while k < b.ncol
          invariant k <= b.ncol
          invariant Valid(ret) && ret.nrow == a.nrow && ret.ncol == b.ncol
          invariant forall i': nat, k': nat :: i' < a.nrow && k' < b.ncol ==>
            Get(ret, i', k') ==
              if i' < i then Dot(a, b, i', k', a.ncol)
              else if i' == i then (if k' < k then Dot(a, b, i', k', j + 1) else Dot(a, b, i', k', j))
              else 0
        {
          var v := Get(ret, i, k) + Get(a, i, j) * Get(b, j, k);
          GetSet(ret, i, k, v);
          ret := Set(ret, i, k, v);
          k := k + 1;
        }
        j := j + 1;
      }
      i := i + 1;
    }
    return Ok(ret.(nflo := CalcNflo(a, b)));
  }

  /** The stores of `multiply_direct` as written for row `i`, columns
      `0 .. k - 1`: the sum for cell (i, k) is stored at `base1 + k` with
      `base1 = i * ncol1`, the row offset of the left operand rather than of
      the result. `None` marks a store past the end of the result buffer. */
  function DirectRow(a: Matrix, b: Matrix, out: seq<int>, i: nat, k: nat): (r: Option<seq<int>>)
    requires Valid(a) && Valid(b) && a.ncol == b.nrow && i < a.nrow && k <= b.ncol
    ensures r.Some? ==> |r.value| == |out|
  {
    if k == 0 then Some(out)
    else match DirectRow(a, b, out, i, k - 1)
      case None => None
      case Some(o) =>
        var offset := Flat(i, k - 1, a.ncol);
        if offset < |o| then Some(o[offset := Dot(a, b, i, k - 1, a.ncol)]) else None
  }

  /** The stores of `multiply_direct` as written for rows `0 .. i - 1`. */
  function DirectFill(a: Matrix, b: Matrix, buf: seq<int>, i: nat): (r: Option<seq<int>>)
    requires Valid(a) && Valid(b) && a.ncol == b.nrow && i <= a.nrow
    ensures r.Some? ==> |r.value| == |buf|
  {
    if i == 0 then Some(buf)
    else match DirectFill(a, b, buf, i - 1)
      case None => None
      case Some(o) => DirectRow(a, b, o, i - 1, b.ncol)
  }

  /** `multiply_direct` as written, once the shapes are validated: `None`
      when one of its stores falls outside the result. */
  function MultiplyDirectAsWritten(a: Matrix, b: Matrix): (r: Option<Matrix>)
    requires Valid(a) && Valid(b) && a.ncol == b.nrow
    ensures r.Some? ==> Valid(r.value) && r.value.nrow == a.nrow && r.value.ncol == b.ncol
  {
    match DirectFill(a, b, seq(a.nrow * b.ncol, _ => 0), a.nrow)
    case None => None
    case Some(buf) => Some(Matrix(a.nrow, b.ncol, buf, CalcNflo(a, b)))
  }

  /** A 2 x 2 times 2 x 1 product: the result has two cells, and the sum for
      cell (1, 0) is stored at offset `1 * 2 + 0 = 2`. */
  lemma MultiplyDirectAsWrittenWritesPastEnd(v: int)
    ensures MultiplyDirectAsWritten(Matrix(2, 2, [v, v, v, v], 0), Matrix(2, 1, [v, v], 0)) == None
  {
    var a := Matrix(2, 2, [v, v, v, v], 0);
    var b := Matrix(2, 1, [v, v], 0);
    var buf := seq(2, _ => 0);
    var o := buf[0 := Dot(a, b, 0, 0, 2)];
    assert DirectRow(a, b, buf, 0, 1) == Some(o);
    assert DirectFill(a, b, buf, 1) == Some(o);
    assert DirectRow(a, b, o, 1, 1) == None;
  }

  /** When `ncol1 == ncol2` the left operand's row offset is the result's,
      so the first `k` stores of row `i` stay in bounds, put the dot
      products where they belong and leave every other cell alone. */
  lemma {:induction false} DirectRowEqualCols(a: Matrix, b: Matrix, out: seq<int>, i: nat, k: nat)
    requires Valid(a) && Valid(b) && a.ncol == b.nrow && a.ncol == b.ncol
    requires i < a.nrow && k <= b.ncol && |out| == a.nrow * b.ncol
    ensures DirectRow(a, b, out, i, k).Some?
    ensures forall k': nat :: k' < k ==>
      Flat(i, k', b.ncol) < |out| && DirectRow(a, b, out, i, k).value[Flat(i, k', b.ncol)] == Dot(a, b, i, k', a.ncol)
    ensures forall q :: 0 <= q < |out| && !(Flat(i, 0, b.ncol) <= q < Flat(i, k, b.ncol)) ==>
      DirectRow(a, b, out, i, k).value[q] == out[q]
  {
    if k > 0 {
      DirectRowEqualCols(a, b, out, i, k - 1);
      FlatBound(i, k - 1, a.nrow, b.ncol);
    }
  }

  /** The rows before `row` of `o` hold their dot products, and `r` fills
      row `row` with its dot products while keeping every cell outside that
      row: then rows `0 .. row` of `r` hold their dot products. */
  lemma NextRowKeepsRows(a: Matrix, b: Matrix, o: seq<int>, r: seq<int>, row: nat)
    requires Valid(a) && Valid(b) && a.ncol == b.nrow && a.ncol == b.ncol
    requires row < a.nrow && |o| == |r| == a.nrow * b.ncol
    requires forall i': nat, k': nat :: i' < row && k' < b.ncol ==>
      Flat(i', k', b.ncol) < |o| && o[Flat(i', k', b.ncol)] == Dot(a, b, i', k', a.ncol)
    requires forall k': nat :: k' < b.ncol ==>
      Flat(row, k', b.ncol) < |r| && r[Flat(row, k', b.ncol)] == Dot(a, b, row, k', a.ncol)
    requires forall q :: 0 <= q < |o| && !(Flat(row, 0, b.ncol) <= q < Flat(row, b.ncol, b.ncol)) ==>
      r[q] == o[q]
    ensures forall i': nat, k': nat :: i' <= row && k' < b.ncol ==>
      Flat(i', k', b.ncol) < |r| && r[Flat(i', k', b.ncol)] == Dot(a, b, i', k', a.ncol)
  {
    forall i': nat, k': nat | i' <= row && k' < b.ncol
      ensures Flat(i', k', b.ncol) < |r| && r[Flat(i', k', b.ncol)] == Dot(a, b, i', k', a.ncol)
    {
      if i' < row {
        FlatBound(i', k', row, b.ncol);
      }
    }
  }

  /** ... and so do the stores of the first `i` rows. */
  lemma {:induction false} DirectFillEqualCols(a: Matrix, b: Matrix, buf: seq<int>, i: nat)
    requires Valid(a) && Valid(b) && a.ncol == b.nrow && a.ncol == b.ncol
    requires i <= a.nrow && |buf| == a.nrow * b.ncol
    ensures DirectFill(a, b, buf, i).Some?
    ensures forall i': nat, k': nat :: i' < i && k' < b.ncol ==>
      Flat(i', k', b.ncol) < |buf| && DirectFill(a, b, buf, i).value[Flat(i', k', b.ncol)] == Dot(a, b, i', k', a.ncol)
  {
    if i > 0 {
      DirectFillEqualCols(a, b, buf, i - 1);
      var o := DirectFill(a, b, buf, i - 1).value;
      DirectRowEqualCols(a, b, o, i - 1, b.ncol);
      var r := DirectRow(a, b, o, i - 1, b.ncol).value;
      assert DirectFill(a, b, buf, i) == Some(r);
      NextRowKeepsRows(a, b, o, r, i - 1);
    }
  }

  /** With `ncol1 == ncol2`, `multiply_direct` as written is defined and is
      the product. */
  lemma MultiplyDirectAsWrittenEqualCols(a: Matrix, b: Matrix)
    requires Valid(a) && Valid(b) && a.ncol == b.nrow && a.ncol == b.ncol
    ensures MultiplyDirectAsWritten(a, b).Some? && IsProduct(MultiplyDirectAsWritten(a, b).value, a, b)
  {
    DirectFillEqualCols(a, b, seq(a.nrow * b.ncol, _ => 0), a.nrow);
  }

  /** With one inner index the dot product is a single term. */
  lemma DotOfOne(a: Matrix, b: Matrix, i: nat, k: nat)
    requires Valid(a) && Valid(b) && a.ncol == b.nrow == 1 && i < a.nrow && k < b.ncol
    ensures Dot(a, b, i, k, 1) == Get(a, i, 0) * Get(b, 0, k)
  {
    assert Dot(a, b, i, k, 1) == Dot(a, b, i, k, 0) + Get(a, i, 0) * Get(b, 0, k);
  }

  /** A 2 x 1 times 1 x 2 product stays in bounds but is not the product:
      with `ncol1 = 1` the sum for cell (1, 0) is stored at offset 1, over
      the sum for cell (0, 1), so cell (0, 1) holds `y` where the product
      has `x`. */
  lemma MultiplyDirectAsWrittenOverwrites(x: int, y: int)
    requires x != y
    ensures MultiplyDirectAsWritten(Matrix(2, 1, [x, y], 0), Matrix(1, 2, [1, 1], 0)).Some?
    ensures !IsProduct(MultiplyDirectAsWritten(Matrix(2, 1, [x, y], 0), Matrix(1, 2, [1, 1], 0)).value,
                       Matrix(2, 1, [x, y], 0), Matrix(1, 2, [1, 1], 0))
  {
    var a := Matrix(2, 1, [x, y], 0);
    var b := Matrix(1, 2, [1, 1], 0);
    var buf := seq(a.nrow * b.ncol, _ => 0);
    DotOfOne(a, b, 0, 0);
    DotOfOne(a, b, 0, 1);
    DotOfOne(a, b, 1, 0);
    DotOfOne(a, b, 1, 1);
    assert Get(a, 0, 0) == x && Get(a, 1, 0) == y && Get(b, 0, 0) == 1 && Get(b, 0, 1) == 1;
    var o := buf[0 := x][1 := x];
    assert DirectRow(a, b, buf, 0, 1) == Some(buf[0 := x]);
    assert DirectFill(a, b, buf, 1) == Some(o);
    assert DirectRow(a, b, o, 1, 1) == Some(o[1 := y]);
    assert DirectFill(a, b, buf, 2) == Some(o[1 := y][2 := y]);
    var r := MultiplyDirectAsWritten(a, b).value;
    assert Get(r, 0, 1) == y;
  }

  /** `multiply_direct` as intended: the i-k-j product on the raw buffers,
      reading `mat1` at `i * ncol1 + j` and `mat2` at `j * ncol2 + k`, and
      storing the sum at the result's own offset `i * ncol2 + k`. */
  method MultiplyDirect(a: Matrix, b: Matrix) returns (r: Result<Matrix>)
    requires Valid(a) && Valid(b)
    ensures r.Err? <==> a.ncol != b.nrow
    ensures r.Err? ==> r.error == OutOfRange
    ensures r.Ok? ==> IsProduct(r.value, a, b) && r.value.nflo == CalcNflo(a, b)
  {
    var e := ValidateMultiplication(a, b);
    if e.Some? {
      return Err(e.value);
    }
    var ret := New(a.nrow, b.ncol);
    var nrow1 := a.nrow;
    var ncol1 := a.ncol;
    var ncol2 := b.ncol;
    var i: nat := 0;
    while i < nrow1
      invariant i <= nrow1
      invariant Valid(ret) && ret.nrow == a.nrow && ret.ncol == b.ncol
      invariant forall i': nat, k': nat :: i' < i && k' < b.ncol ==> Get(ret, i', k') == Dot(a, b, i', k', a.ncol)
    {
      var base1 := i * ncol1;
      var baser := i * ncol2;
      var k: nat := 0;
      while k < ncol2
        invariant k <= ncol2
        invariant Valid(ret) && ret.nrow == a.nrow && ret.ncol == b.ncol
        invariant forall i': nat, k': nat :: (i' < i || (i' == i && k' < k)) && k' < b.ncol ==>
          Get(ret, i', k') == Dot(a, b, i', k', a.ncol)
      {
        var v := 0;
        var j: nat := 0;
        while j < ncol1
          invariant j <= ncol1 && v == Dot(a, b, i, k, j)
        {
          FlatBound(i, j, a.nrow, a.ncol);
          FlatBound(j, k, b.nrow, b.ncol);
          v := v + a.buffer[base1 + j] * b.buffer[j * ncol2 + k];
          j := j + 1;
        }
        FlatBound(i, k, ret.nrow, ret.ncol);
        GetSet(ret, i, k, v);
        assert ret.(buffer := ret.buffer[baser + k := v]) == Set(ret, i, k, v);
        ret := ret.(buffer := ret.buffer[baser + k := v]);
        k := k + 1;
      }
      i := i + 1;
    }
    return Ok(ret.(nflo := CalcNflo(a, b)));
  }

  /** Cell (i, j) of a `T x T` tile `Block<T>`, stored row by row. */
  function BlockGet(blk: seq<int>, T: nat, i: nat, j: nat): int
    requires |blk| == T * T && i < T && j < T
  {
    FlatBound(i, j, T, T);
    blk[Flat(i, j, T)]
  }

  /** `m_buffer[i * T + j] = v` on a tile. */
  function BlockSet(blk: seq<int>, T: nat, i: nat, j: nat, v: int): (r: seq<int>)
    requires |blk| == T * T && i < T && j < T
    ensures |r| == T * T
  {
    FlatBound(i, j, T, T);
    blk[Flat(i, j, T) := v]
  }

  lemma BlockGetSet(blk: seq<int>, T: nat, i: nat, j: nat, v: int)
    requires |blk| == T * T && i < T && j < T
    ensures forall i': nat, j': nat :: i' < T && j' < T ==>
      BlockGet(BlockSet(blk, T, i, j, v), T, i', j') == if i' == i && j' == j then v else BlockGet(blk, T, i', j')
  {
    forall i': nat, j': nat | i' < T && j' < T
      ensures BlockGet(BlockSet(blk, T, i, j, v), T, i', j') == if i' == i && j' == j then v else BlockGet(blk, T, i', j')
    {
      FlatBound(i', j', T, T);
      if Flat(i', j', T) == Flat(i, j, T) {
        FlatInjective(i', j', i, j, T);
      }
    }
  }

  /** `Block<T>::operator=(double)`: every cell set to `v`. */
  function BlockFill(T: nat, v: int): (r: seq<int>)
    ensures |r| == T * T
    ensures forall i: nat, j: nat :: i < T && j < T ==> BlockGet(r, T, i, j) == v
  {
    FlatBoundAll(T, T);
    seq(T * T, _ => v)
  }

  /** `Block<T>::operator+=`: cell-wise sum. */
  function BlockAdd(x: seq<int>, y: seq<int>): (r: seq<int>)
    requires |x| == |y|
    ensures |r| == |x|
  {
    seq(|x|, p requires 0 <= p < |x| => x[p] + y[p])
  }

  lemma BlockAddGet(x: seq<int>, y: seq<int>, T: nat, i: nat, j: nat)
    requires |x| == T * T && |y| == T * T && i < T && j < T
    ensures BlockGet(BlockAdd(x, y), T, i, j) == BlockGet(x, T, i, j) + BlockGet(y, T, i, j)
  {
    FlatBound(i, j, T, T);
  }

  /** `Tiler<T>`: the two operand tiles (the second stored transposed) and the
      result tile, which `load` also uses as scratch. */
  datatype Tiler = Tiler(mat1: seq<int>, mat2: seq<int>, ret: seq<int>)

  predicate TilerShaped(t: Tiler, T: nat) {
    |t.mat1| == T * T && |t.mat2| == T * T && |t.ret| == T * T
  }

  /** `Tiler<T>::load`: copies tile (it1, jt1) of `a` into `mat1` as it is,
      and tile (it2, jt2) of `b` into `ret`, then transposed into `mat2`. */
  method Load(t: Tiler, T: nat, a: Matrix, it1: nat, jt1: nat, b: Matrix, it2: nat, jt2: nat) returns (u: Tiler)
    requires T > 0 && TilerShaped(t, T) && Valid(a) && Valid(b)
    requires it1 * T + T <= a.nrow && jt1 * T + T <= a.ncol
    requires it2 * T + T <= b.nrow && jt2 * T + T <= b.ncol
    ensures TilerShaped(u, T)
    ensures forall i: nat, j: nat :: i < T && j < T ==> BlockGet(u.mat1, T, i, j) == Get(a, it1 * T + i, jt1 * T + j)
    ensures forall i: nat, j: nat :: i < T && j < T ==> BlockGet(u.mat2, T, j, i) == Get(b, it2 * T + i, jt2 * T + j)
  {
    var ncol1 := a.ncol;
    var m1 := t.mat1;
    var i: nat := 0;
    while i < T
      invariant i <= T && |m1| == T * T
      invariant forall i': nat, j': nat :: i' < i && j' < T ==> BlockGet(m1, T, i', j') == Get(a, it1 * T + i', jt1 * T + j')
    {
      var base_s := (it1 * T + i) * ncol1 + jt1 * T;
      var j: nat := 0;
      while j < T
        invariant j <= T && |m1| == T * T
        invariant forall i': nat, j': nat :: (i' < i || (i' == i && j' < j)) && j' < T ==>
          BlockGet(m1, T, i', j') == Get(a, it1 * T + i', jt1 * T + j')
      {
        FlatBound(it1 * T + i, jt1 * T + j, a.nrow, a.ncol);
        assert a.buffer[base_s + j] == Get(a, it1 * T + i, jt1 * T + j);
        BlockGetSet(m1, T, i, j, a.buffer[base_s + j]);
        m1 := BlockSet(m1, T, i, j, a.buffer[base_s + j]);
        j := j + 1;
      }
      i := i + 1;
    }

    var ncol2 := b.ncol;
    var scratch := t.ret;
    i := 0;
    while i < T
      invariant i <= T && |scratch| == T * T
      invariant forall i': nat, j': nat :: i' < i && j' < T ==> BlockGet(scratch, T, i', j') == Get(b, it2 * T + i', jt2 * T + j')
    {
      var base_s := (it2 * T + i) * ncol2 + jt2 * T;
      var j: nat := 0;
      while j < T
        invariant j <= T && |scratch| == T * T
        invariant forall i': nat, j': nat :: (i' < i || (i' == i && j' < j)) && j' < T ==>
          BlockGet(scratch, T, i', j') == Get(b, it2 * T + i', jt2 * T + j')
      {
        FlatBound(it2 * T + i, jt2 * T + j, b.nrow, b.ncol);
        assert b.buffer[base_s + j] == Get(b, it2 * T + i, jt2 * T + j);
        BlockGetSet(scratch, T, i, j, b.buffer[base_s + j]);
        scratch := BlockSet(scratch, T, i, j, b.buffer[base_s + j]);
        j := j + 1;
      }
      i := i + 1;
    }

    var m2 := t.mat2;
    i := 0;
    while i < T
      invariant i <= T && |m2| == T * T
      invariant forall i': nat, j': nat :: i' < i && j' < T ==> BlockGet(m2, T, j', i') == BlockGet(scratch, T, i', j')
    {
      var j: nat := 0;
      while j < T
        invariant j <= T && |m2| == T * T
        invariant forall i': nat, j': nat :: (i' < i || (i' == i && j' < j)) && j' < T ==>
          BlockGet(m2, T, j', i') == BlockGet(scratch, T, i', j')
      {
        BlockGetSet(m2, T, j, i, BlockGet(scratch, T, i, j));
        m2 := BlockSet(m2, T, j, i, BlockGet(scratch, T, i, j));
        j := j + 1;
      }
      i := i + 1;
    }
    u := Tiler(m1, m2, scratch);
  }

  /** The dot product of row `i` of `mat1` with row `k` of the transposed
      `mat2`, over the first `n` positions. */
  function TileDot(m1: seq<int>, m2: seq<int>, T: nat, i: nat, k: nat, n: nat): int
    requires |m1| == T * T && |m2| == T * T && i < T && k < T && n <= T
  {
    if n == 0 then 0 else TileDot(m1, m2, T, i, k, n - 1) + BlockGet(m1, T, i, n - 1) * BlockGet(m2, T, k, n - 1)
  }

  /** `Tiler<T>::multiply`: `ret[i * T + k]` is row `i` of `mat1` dotted with
      row `k` of `mat2`, i.e. column `k` of the original second tile. */
  method TileMultiply(t: Tiler, T: nat) returns (u: Tiler)
    requires TilerShaped(t, T)
    ensures TilerShaped(u, T) && u.mat1 == t.mat1 && u.mat2 == t.mat2
    ensures forall i: nat, k: nat :: i < T && k < T ==> BlockGet(u.ret, T, i, k) == TileDot(t.mat1, t.mat2, T, i, k, T)
  {
    var res := t.ret;
    var i: nat := 0;
    while i < T
      invariant i <= T && |res| == T * T
      invariant forall i': nat, k': nat :: i' < i && k' < T ==> BlockGet(res, T, i', k') == TileDot(t.mat1, t.mat2, T, i', k', T)
    {
      var k: nat := 0;
      while k < T
        invariant k <= T && |res| == T * T
        invariant forall i': nat, k': nat :: (i' < i || (i' == i && k' < k)) && k' < T ==>
          BlockGet(res, T, i', k') == TileDot(t.mat1, t.mat2, T, i', k', T)
      {
        var v := 0;
        var j: nat := 0;
        while j < T
          invariant j <= T && v == TileDot(t.mat1, t.mat2, T, i, k, j)
        {
          v := v + BlockGet(t.mat1, T, i, j) * BlockGet(t.mat2, T, k, j);
          j := j + 1;
        }
        BlockGetSet(res, T, i, k, v);
        res := BlockSet(res, T, i, k, v);
        k := k + 1;
      }
      i := i + 1;
    }
    u := t.(ret := res);
  }

  /** Cell (row, col) lies in tile (it, jt). */
  predicate InTile(row: nat, col: nat, it: nat, jt: nat, T: nat) {
    it * T <= row < it * T + T && jt * T <= col < jt * T + T
  }

  /** `Block<T>::save`: writes the tile into tile (it, jt) of `mat`, at
      `(it * T + i) * ncol + jt * T + j`, and touches nothing else. */
  method Save(blk: seq<int>, T: nat, mat: Matrix, it: nat, jt: nat) returns (r: Matrix)
    requires |blk| == T * T && Valid(mat)
    requires it * T + T <= mat.nrow && jt * T + T <= mat.ncol
    ensures Valid(r) && SameShape(r, mat)
    ensures forall row: nat, col: nat :: row < mat.nrow && col < mat.ncol ==>
      Get(r, row, col) == if InTile(row, col, it, jt, T) then BlockGet(blk, T, row - it * T, col - jt * T) else Get(mat, row, col)
  {
    r := mat;
    var i: nat := 0;
    while i < T
      invariant i <= T && Valid(r) && SameShape(r, mat)
      invariant forall row: nat, col: nat :: row < mat.nrow && col < mat.ncol ==>
        Get(r, row, col) ==
          if InTile(row, col, it, jt, T) && row < it * T + i then BlockGet(blk, T, row - it * T, col - jt * T)
          else Get(mat, row, col)
    {
      var j: nat := 0;
      while j < T
        invariant j <= T && Valid(r) && SameShape(r, mat)
        invariant forall row: nat, col: nat :: row < mat.nrow && col < mat.ncol ==>
          Get(r, row, col) ==
            if InTile(row, col, it, jt, T) && (row < it * T + i || (row == it * T + i && col < jt * T + j))
            then BlockGet(blk, T, row - it * T, col - jt * T)
            else Get(mat, row, col)
      {
        GetSet(r, it * T + i, jt * T + j, BlockGet(blk, T, i, j));
        r := Set(r, it * T + i, jt * T + j, BlockGet(blk, T, i, j));
        j := j + 1;
      }
      i := i + 1;
    }
  }

  /** The dot product of a loaded tile pair extends the reference sum by one
      tile's worth of the inner dimension. */
  lemma {:induction false} TileDotExtendsDot(t: Tiler, T: nat, a: Matrix, b: Matrix, it: nat, jt: nat, kt: nat, i: nat, k: nat, n: nat)
    requires T > 0 && TilerShaped(t, T) && Valid(a) && Valid(b) && a.ncol == b.nrow
    requires it * T + T <= a.nrow && jt * T + T <= a.ncol && kt * T + T <= b.ncol
    requires i < T && k < T && n <= T
    requires forall i': nat, j': nat :: i' < T && j' < T ==> BlockGet(t.mat1, T, i', j') == Get(a, it * T + i', jt * T + j')
    requires forall i': nat, j': nat :: i' < T && j' < T ==> BlockGet(t.mat2, T, j', i') == Get(b, jt * T + i', kt * T + j')
    ensures Dot(a, b, it * T + i, kt * T + k, jt * T + n) == Dot(a, b, it * T + i, kt * T + k, jt * T) + TileDot(t.mat1, t.mat2, T, i, k, n)
    decreases n
  {
    if n > 0 {
      TileDotExtendsDot(t, T, a, b, it, jt, kt, i, k, n - 1);
      assert BlockGet(t.mat1, T, i, n - 1) == Get(a, it * T + i, jt * T + (n - 1));
      assert BlockGet(t.mat2, T, k, n - 1) == Get(b, jt * T + (n - 1), kt * T + k);
    }
  }

  /** One pass of the inner-dimension loop of `multiply_tile`, for cell
      (i, k) of the result tile: adding the product of tile pair `jt` to the
      running sum extends it by `T` terms. */
  lemma AccumulateCell(v: int, w: int, loaded: Tiler, T: nat, a: Matrix, b: Matrix, it: nat, jt: nat, kt: nat, i: nat, k: nat)
    requires T > 0 && TilerShaped(loaded, T) && Valid(a) && Valid(b) && a.ncol == b.nrow
    requires it * T + T <= a.nrow && jt * T + T <= a.ncol && kt * T + T <= b.ncol && i < T && k < T
    requires forall i': nat, j': nat :: i' < T && j' < T ==> BlockGet(loaded.mat1, T, i', j') == Get(a, it * T + i', jt * T + j')
    requires forall i': nat, j': nat :: i' < T && j' < T ==> BlockGet(loaded.mat2, T, j', i') == Get(b, jt * T + i', kt * T + j')
    requires w == TileDot(loaded.mat1, loaded.mat2, T, i, k, T)
    requires v == Dot(a, b, it * T + i, kt * T + k, jt * T)
    ensures v + w == Dot(a, b, it * T + i, kt * T + k, jt * T + T)
  {
    TileDotExtendsDot(loaded, T, a, b, it, jt, kt, i, k, T);
  }

  /** One pass of the inner loop of `multiply_tile`: load tile pair
      (it, jt) x (jt, kt), multiply it and add the product to `value`. */
  method AddTileProduct(value: seq<int>, tiler: Tiler, T: nat, a: Matrix, b: Matrix, it: nat, jt: nat, kt: nat)
    returns (value': seq<int>, u: Tiler)
    requires T > 0 && TilerShaped(tiler, T) && |value| == T * T && Valid(a) && Valid(b) && a.ncol == b.nrow
    requires it * T + T <= a.nrow && jt * T + T <= a.ncol && kt * T + T <= b.ncol
    requires forall i: nat, k: nat :: i < T && k < T ==>
      BlockGet(value, T, i, k) == Dot(a, b, it * T + i, kt * T + k, jt * T)
    ensures TilerShaped(u, T) && |value'| == T * T
    ensures forall i: nat, k: nat :: i < T && k < T ==>
      BlockGet(value', T, i, k) == Dot(a, b, it * T + i, kt * T + k, jt * T + T)
  {
    u := Load(tiler, T, a, it, jt, b, jt, kt);
    var loaded := u;
    u := TileMultiply(u, T);
    value' := BlockAdd(value, u.ret);
    forall i: nat, k: nat | i < T && k < T
      ensures BlockGet(value', T, i, k) == Dot(a, b, it * T + i, kt * T + k, jt * T + T)
    {
      BlockAddGet(value, u.ret, T, i, k);
      AccumulateCell(BlockGet(value, T, i, k), BlockGet(u.ret, T, i, k), loaded, T, a, b, it, jt, kt, i, k);
    }
  }

  /** The body of `multiply_tile` for result tile (it, kt): zero a tile,
      then for every full tile `jt` along the inner dimension load, multiply
      and add. The sum is the reference product restricted to the tile and
      to the inner indices the full tiles cover. */
  method ResultTile(tiler: Tiler, T: nat, a: Matrix, b: Matrix, it: nat, kt: nat) returns (value: seq<int>, u: Tiler)
    requires T > 0 && TilerShaped(tiler, T) && Valid(a) && Valid(b) && a.ncol == b.nrow
    requires it * T + T <= a.nrow && kt * T + T <= b.ncol
    ensures |value| == T * T && TilerShaped(u, T)
    ensures forall i: nat, k: nat :: i < T && k < T ==>
      BlockGet(value, T, i, k) == Dot(a, b, it * T + i, kt * T + k, TiledExtent(a.ncol, T))
  {
    var ntcol1 := a.ncol / T;
    value := BlockFill(T, 0);
    assert 0 * T == 0;
    u := tiler;
    var jt: nat := 0;
    while jt < ntcol1
      invariant jt <= ntcol1 && jt * T <= a.ncol
      invariant TilerShaped(u, T) && |value| == T * T
      invariant forall i: nat, k: nat :: i < T && k < T ==>
        BlockGet(value, T, i, k) == Dot(a, b, it * T + i, kt * T + k, jt * T)
    {
      TileFits(jt, a.ncol, T);
      value, u := AddTileProduct(value, u, T, a, b, it, jt, kt);
      jt := jt + 1;
    }
    assert jt * T == TiledExtent(a.ncol, T);
  }

  /** One pass of the outer loop of `multiply_tile`: every full result tile
      (it, kt) of tile row `it` is computed and saved; the rest of the
      result is untouched. */
  method TileRow(ret: Matrix, tiler: Tiler, T: nat, a: Matrix, b: Matrix, it: nat) returns (ret': Matrix, u: Tiler)
    requires T > 0 && TilerShaped(tiler, T) && Valid(a) && Valid(b) && a.ncol == b.nrow
    requires it * T + T <= a.nrow
    requires Valid(ret) && ret.nrow == a.nrow && ret.ncol == b.ncol
    ensures Valid(ret') && ret'.nrow == a.nrow && ret'.ncol == b.ncol && TilerShaped(u, T)
    ensures forall row: nat, col: nat :: row < a.nrow && col < b.ncol ==>
      Get(ret', row, col) ==
        if it * T <= row < it * T + T && col < TiledExtent(b.ncol, T)
        then Dot(a, b, row, col, TiledExtent(a.ncol, T))
        else Get(ret, row, col)
  {
    var ntcol2 := b.ncol / T;
    var inner := TiledExtent(a.ncol, T);
    ret' := ret;
    u := tiler;
    var kt: nat := 0;
    while kt < ntcol2
      invariant kt <= ntcol2 && kt * T <= b.ncol
      invariant Valid(ret') && ret'.nrow == a.nrow && ret'.ncol == b.ncol && TilerShaped(u, T)
      invariant forall row: nat, col: nat :: row < a.nrow && col < b.ncol ==>
        Get(ret', row, col) ==
          if it * T <= row < it * T + T && col < kt * T then Dot(a, b, row, col, inner)
          else Get(ret, row, col)
    {
      TileFits(kt, b.ncol, T);
      var value;
      value, u := ResultTile(u, T, a, b, it, kt);
      ret' := Save(value, T, ret', it, kt);
      kt := kt + 1;
    }
    assert kt * T == TiledExtent(b.ncol, T);
  }

  /** The loops of `multiply_tile`: every full result tile is computed and
      saved, so each cell the full tiles cover holds the product truncated to
      the inner indices the full tiles cover. */
  method TileRows(a: Matrix, b: Matrix, T: nat) returns (ret: Matrix)
    requires Valid(a) && Valid(b) && T > 0 && a.ncol == b.nrow
    ensures Valid(ret) && ret.nrow == a.nrow && ret.ncol == b.ncol
    ensures forall row: nat, col: nat :: row < TiledExtent(a.nrow, T) && col < TiledExtent(b.ncol, T) ==>
      Get(ret, row, col) == Dot(a, b, row, col, TiledExtent(a.ncol, T))
  {
    ret := New(a.nrow, b.ncol);
    var ntrow1 := a.nrow / T;
    var cols := TiledExtent(b.ncol, T);
    var inner := TiledExtent(a.ncol, T);
    var tiler := Tiler(BlockFill(T, 0), BlockFill(T, 0), BlockFill(T, 0));

    var it: nat := 0;
    while it < ntrow1
      invariant it <= ntrow1 && it * T <= a.nrow
      invariant Valid(ret) && ret.nrow == a.nrow && ret.ncol == b.ncol && TilerShaped(tiler, T)
      invariant forall row: nat, col: nat :: row < a.nrow && col < b.ncol && row < it * T && col < cols ==>
        Get(ret, row, col) == Dot(a, b, row, col, inner)
    {
      TileFits(it, a.nrow, T);
      ret, tiler := TileRow(ret, tiler, T, a, b, it);
      it := it + 1;
    }
    assert it * T == TiledExtent(a.nrow, T);
  }

  /** When `T` divides every dimension the full tiles cover the whole
      result and the whole inner dimension, so the tiled result is the
      product. */
  lemma FullTilesGiveProduct(r: Matrix, a: Matrix, b: Matrix, T: nat)
    requires Valid(a) && Valid(b) && T > 0 && a.ncol == b.nrow
    requires a.nrow % T == 0 && a.ncol % T == 0 && b.ncol % T == 0
    requires Valid(r) && r.nrow == a.nrow && r.ncol == b.ncol
    requires forall row: nat, col: nat :: row < TiledExtent(a.nrow, T) && col < TiledExtent(b.ncol, T) ==>
      Get(r, row, col) == Dot(a, b, row, col, TiledExtent(a.ncol, T))
    ensures IsProduct(r, a, b)
  {
  }

  /** `multiply_tile<LSIZE>` with tile size `T = LSIZE / sizeof(double)`:
      for each full result tile, sum the products of the full tile pairs
      along the inner dimension and save it. Rows, columns and inner indices
      past the last full tile are never visited: the cells the full tiles
      cover hold the product truncated to the covered inner indices, and the
      whole result is the product when `T` divides every dimension. */
  method MultiplyTile(a: Matrix, b: Matrix, T: nat) returns (r: Result<Matrix>)
    requires Valid(a) && Valid(b) && T > 0
    ensures r.Err? <==> a.ncol != b.nrow
    ensures r.Err? ==> r.error == OutOfRange
    ensures r.Ok? ==> (Valid(r.value) && r.value.nrow == a.nrow && r.value.ncol == b.ncol
      && r.value.nflo == CalcNflo(a, b)
      && forall row: nat, col: nat :: row < TiledExtent(a.nrow, T) && col < TiledExtent(b.ncol, T) ==>
        Get(r.value, row, col) == Dot(a, b, row, col, TiledExtent(a.ncol, T)))
    ensures r.Ok? && a.nrow % T == 0 && a.ncol % T == 0 && b.ncol % T == 0 ==> IsProduct(r.value, a, b)
  {
    var e := ValidateMultiplication(a, b);
    if e.Some? {
      return Err(e.value);
    }
    var ret := TileRows(a, b, T);
    ret := ret.(nflo := CalcNflo(a, b));
    if a.nrow % T == 0 && a.ncol % T == 0 && b.ncol % T == 0 {
      FullTilesGiveProduct(ret, a, b, T);
    }
    return Ok(ret);
  }
}
