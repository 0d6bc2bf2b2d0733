/** The row-major integer-valued matrix of nsd/05cache/code/03_matrix_matrix.cpp:
    an `nrow` x `ncol` matrix owning a flat buffer indexed `row * ncol + col`,
    with the floating-point operation count `nflo` the multiplications record.
    The source stores doubles; the model uses `int`, which is exact for the
    small-integer data `initialize` writes. */
module CacheMatrix {
  import opened Errors
  import opened Arith

  /** `buffer` is the heap block; the empty sequence stands for `nullptr`,
      which `reset_buffer` uses exactly when `nrow * ncol == 0`. */
  datatype Matrix = Matrix(nrow: nat, ncol: nat, buffer: seq<int>, nflo: nat)

  function Size(m: Matrix): nat {
    m.nrow * m.ncol
  }

  predicate Valid(m: Matrix) {
    |m.buffer| == Size(m)
  }

  /** Same dimensions and operation count: only cell values may differ. */
  predicate SameShape(a: Matrix, b: Matrix) {
    a.nrow == b.nrow && a.ncol == b.ncol && a.nflo == b.nflo
  }

  /** `operator()(row, col)` read: `m_buffer[index(row, col)]`. */
  function Get(m: Matrix, row: nat, col: nat): int
    requires Valid(m) && row < m.nrow && col < m.ncol
  {
    FlatBound(row, col, m.nrow, m.ncol);
    m.buffer[Flat(row, col, m.ncol)]
  }

  /** `operator()(row, col) = v`. */
  function Set(m: Matrix, row: nat, col: nat, v: int): (r: Matrix)
    requires Valid(m) && row < m.nrow && col < m.ncol
    ensures Valid(r) && SameShape(r, m)
    ensures Get(r, row, col) == v
  {
    FlatBound(row, col, m.nrow, m.ncol);
    m.(buffer := m.buffer[Flat(row, col, m.ncol) := v])
  }

  /** `index(row, col) = row * ncol + col` stays below `size()` and is
      one-to-one on the logical grid. */
  lemma IndexInBounds(m: Matrix, r1: nat, c1: nat, r2: nat, c2: nat)
    requires r1 < m.nrow && c1 < m.ncol && r2 < m.nrow && c2 < m.ncol
    ensures Flat(r1, c1, m.ncol) < Size(m)
    ensures Flat(r1, c1, m.ncol) == Flat(r2, c2, m.ncol) <==> r1 == r2 && c1 == c2
  {
    FlatBound(r1, c1, m.nrow, m.ncol);
    if Flat(r1, c1, m.ncol) == Flat(r2, c2, m.ncol) {
      FlatInjective(r1, c1, r2, c2, m.ncol);
    }
  }

  /** A write to (row, col) leaves every other element as it was. */
  lemma GetSet(m: Matrix, row: nat, col: nat, v: int)
    requires Valid(m) && row < m.nrow && col < m.ncol
    ensures forall r: nat, c: nat :: r < m.nrow && c < m.ncol ==>
      Get(Set(m, row, col, v), r, c) == if r == row && c == col then v else Get(m, r, c)
  {
    forall r: nat, c: nat | r < m.nrow && c < m.ncol
      ensures Get(Set(m, row, col, v), r, c) == if r == row && c == col then v else Get(m, r, c)
    {
      IndexInBounds(m, r, c, row, col);
    }
  }

  /** Matrices of the same shape that agree on every element have equal buffers. */
  lemma SameElementsSameBuffer(a: Matrix, b: Matrix)
    requires Valid(a) && Valid(b) && a.nrow == b.nrow && a.ncol == b.ncol
    requires forall r: nat, c: nat :: r < a.nrow && c < a.ncol ==> Get(a, r, c) == Get(b, r, c)
    ensures a.buffer == b.buffer
  {
    forall k | 0 <= k < |a.buffer|
      ensures a.buffer[k] == b.buffer[k]
    {
      FlatOnto(k, a.nrow, a.ncol);
      assert Get(a, k / a.ncol, k % a.ncol) == Get(b, k / a.ncol, k % a.ncol);
    }
  }

  /** `Matrix(nrow, ncol)`: a block of `nrow * ncol` cells (indeterminate in
      the source, zero here) and no operations counted. */
  function New(nrow: nat, ncol: nat): (r: Matrix)
    ensures Valid(r) && r.nrow == nrow && r.ncol == ncol && r.nflo == 0
  {
    Matrix(nrow, ncol, seq(nrow * ncol, _ => 0), 0)
  }

  /** `operator=(std::vector<double> const &)`: `out_of_range` unless the
      vector has exactly `size()` values; otherwise the vector, read in
      row-major order, becomes the buffer. */
  method AssignVector(m: Matrix, vec: seq<int>) returns (r: Result<Matrix>)
    requires Valid(m)
    ensures r.Err? <==> |vec| != Size(m)
    ensures r.Err? ==> r.error == OutOfRange
    ensures r.Ok? ==> SameShape(r.value, m) && r.value.buffer == vec
  {
    if Size(m) != |vec| {
      return Err(OutOfRange);
    }
    FlatBoundAll(m.nrow, m.ncol);
    var cur := m;
    var k: nat := 0;
    var i: nat := 0;
    while i < m.nrow
      invariant i <= m.nrow && k == i * m.ncol
      invariant Valid(cur) && SameShape(cur, m)
      invariant forall i': nat, j': nat :: i' < i && j' < m.ncol ==> Get(cur, i', j') == vec[Flat(i', j', m.ncol)]
    {
      var j: nat := 0;
      while j < m.ncol
        invariant j <= m.ncol && k == Flat(i, j, m.ncol)
        invariant Valid(cur) && SameShape(cur, m)
        invariant forall i': nat, j': nat :: (i' < i || (i' == i && j' < j)) && j' < m.ncol ==>
          Get(cur, i', j') == vec[Flat(i', j', m.ncol)]
      {
        GetSet(cur, i, j, vec[k]);
        cur := Set(cur, i, j, vec[k]);
        k := k + 1;
        j := j + 1;
      }
      i := i + 1;
    }
    SameElementsSameBuffer(cur, m.(buffer := vec));
    return Ok(cur);
  }

  /** The element-copy loop of the copy constructor and copy assignment. */
  method CopyElements(dst: Matrix, src: Matrix) returns (r: Matrix)
    requires Valid(dst) && Valid(src) && dst.nrow == src.nrow && dst.ncol == src.ncol
    ensures SameShape(r, dst) && r.buffer == src.buffer
  {
    r := dst;
    var i: nat := 0;
    while i < dst.nrow
      invariant i <= dst.nrow
      invariant Valid(r) && SameShape(r, dst)
      invariant forall i': nat, j': nat :: i' < i && j' < dst.ncol ==> Get(r, i', j') == Get(src, i', j')
    {
      var j: nat := 0;
      while j < dst.ncol
        invariant j <= dst.ncol
        invariant Valid(r) && SameShape(r, dst)
        invariant forall i': nat, j': nat :: (i' < i || (i' == i && j' < j)) && j' < dst.ncol ==>
          Get(r, i', j') == Get(src, i', j')
      {
        GetSet(r, i, j, Get(src, i, j));
        r := Set(r, i, j, Get(src, i, j));
        j := j + 1;
      }
      i := i + 1;
    }
    SameElementsSameBuffer(r, src);
  }

  /** The copy constructor: a new block holding the same cells, and the same
      operation count. */
  method CopyConstruct(other: Matrix) returns (r: Matrix)
    requires Valid(other)
    ensures r == other
  {
    var blank := New(other.nrow, other.ncol).(nflo := other.nflo);
    r := CopyElements(blank, other);
  }

  /** Copy assignment: a no-op when `aliased` (`this == &other`); otherwise
      the block is reallocated when the dimensions differ, and the target ends
      equal to `other` in dimensions, cells and operation count. */
  method CopyAssign(m: Matrix, other: Matrix, aliased: bool) returns (r: Matrix)
    requires Valid(m) && Valid(other)
    requires aliased ==> m == other
    ensures r == other
  {
    if aliased {
      return m;
    }
    var cur := m;
    if m.nrow != other.nrow || m.ncol != other.ncol {
      cur := New(other.nrow, other.ncol).(nflo := m.nflo);
    }
    r := CopyElements(cur, other);
    r := r.(nflo := other.nflo);
  }

  /** The move constructor: takes dimensions, buffer and operation count;
      the source is left 0 x 0 with no buffer (its count is untouched).
      Returns (new matrix, source afterwards). */
  function MoveConstruct(other: Matrix): (r: (Matrix, Matrix))
    ensures r.0 == other
    ensures r.1 == Matrix(0, 0, [], other.nflo)
    ensures Valid(r.1)
  {
    var self := Matrix(other.nrow, other.ncol, [], other.nflo);
    var self' := Matrix(0, 0, [], self.nflo);
    (self'.(nrow := other.nrow, ncol := other.ncol, buffer := other.buffer),
     other.(nrow := self'.nrow, ncol := self'.ncol, buffer := self'.buffer))
  }

  /** Move assignment: a no-op when `aliased`; otherwise the target frees its
      block and swaps everything with the source, so the target becomes the
      source and the source a 0 x 0 matrix carrying the target's old count.
      Returns (target, source). */
  function MoveAssign(m: Matrix, other: Matrix, aliased: bool): (r: (Matrix, Matrix))
    requires aliased ==> m == other
    ensures aliased ==> r == (m, other)
    ensures !aliased ==> r.0 == other && r.1 == Matrix(0, 0, [], m.nflo)
  {
    if aliased then (m, other)
    else
      var self := m.(nrow := 0, ncol := 0, buffer := []);
      (other, self)
  }

  /** `t` is the transpose of `m`. */
  ghost predicate IsTransposeOf(t: Matrix, m: Matrix) {
    Valid(t) && Valid(m) && t.nrow == m.ncol && t.ncol == m.nrow
    && forall i: nat, j: nat :: i < m.nrow && j < m.ncol ==> Get(t, j, i) == Get(m, i, j)
  }

  /** Transposing twice gives back the matrix. */
  lemma TransposeInvolution(t: Matrix, u: Matrix, m: Matrix)
    requires IsTransposeOf(t, m) && IsTransposeOf(u, t)
    ensures u.nrow == m.nrow && u.ncol == m.ncol && u.buffer == m.buffer
  {
    forall i: nat, j: nat | i < m.nrow && j < m.ncol
      ensures Get(u, i, j) == Get(m, i, j)
    {
      assert Get(u, i, j) == Get(t, j, i);
    }
    SameElementsSameBuffer(u, m);
  }

  /** The writes of `transpose()` as written, in loop order, for the first
      `p` elements of `m` (element `p` is `(p / ncol, p % ncol)`): element
      (i, j) is stored at `ret(j, i)`, the offset `j * ncol + i`, because the
      result is allocated with the source's own shape `nrow x ncol`. `None`
      marks a write past the end of the result buffer. */
  function TransposeFill(m: Matrix, buf: seq<int>, p: nat): (r: Option<seq<int>>)
    requires Valid(m) && p <= Size(m)
    ensures r.Some? ==> |r.value| == |buf|
  {
    if p == 0 then Some(buf)
    else match TransposeFill(m, buf, p - 1)
      case None => None
      case Some(out) =>
        FlatOnto(p - 1, m.nrow, m.ncol);
        var k := Flat((p - 1) % m.ncol, (p - 1) / m.ncol, m.ncol);
        if k < |out| then Some(out[k := m.buffer[p - 1]]) else None
  }

  /** `transpose()` as written: `None` when one of its writes falls outside
      the result. */
  function TransposeAsWritten(m: Matrix): (r: Option<Matrix>)
    requires Valid(m)
    ensures r.Some? ==> Valid(r.value) && r.value.nrow == m.nrow && r.value.ncol == m.ncol
  {
    match TransposeFill(m, seq(Size(m), _ => 0), Size(m))
    case None => None
    case Some(buf) => Some(Matrix(m.nrow, m.ncol, buf, 0))
  }

  /** For the 1 x 3 matrix the second write, element (0, 1), goes to offset
      3 of a three-cell buffer. */
  lemma TransposeAsWrittenWritesPastEnd(x: int, y: int, z: int)
    ensures TransposeAsWritten(Matrix(1, 3, [x, y, z], 0)) == None
  {
    var m := Matrix(1, 3, [x, y, z], 0);
    var buf := seq(3, _ => 0);
    assert TransposeFill(m, buf, 1) == Some(buf[0 := x]);
    assert TransposeFill(m, buf, 2) == None;
  }

  /** On a square matrix the first `p` writes of `transpose()` as written
      stay in bounds, and each element (i, j) among them has landed at
      (j, i). */
  lemma {:induction false} TransposeFillSquare(m: Matrix, buf: seq<int>, p: nat)
    requires Valid(m) && m.nrow == m.ncol && p <= Size(m) && |buf| == Size(m)
    ensures TransposeFill(m, buf, p).Some?
    ensures forall i: nat, j: nat :: i < m.nrow && j < m.ncol && Flat(i, j, m.ncol) < p ==>
      Flat(j, i, m.ncol) < |TransposeFill(m, buf, p).value|
      && TransposeFill(m, buf, p).value[Flat(j, i, m.ncol)] == m.buffer[Flat(i, j, m.ncol)]
  {
    if p > 0 {
      TransposeFillSquare(m, buf, p - 1);
      var out := TransposeFill(m, buf, p - 1).value;
      var n := m.ncol;
      FlatOnto(p - 1, m.nrow, n);
      var i0, j0 := (p - 1) / n, (p - 1) % n;
      FlatBound(j0, i0, m.nrow, n);
      var k := Flat(j0, i0, n);
      assert TransposeFill(m, buf, p) == Some(out[k := m.buffer[p - 1]]);
      forall i: nat, j: nat | i < m.nrow && j < n && Flat(i, j, n) < p
        ensures Flat(j, i, n) < |out|
        ensures out[k := m.buffer[p - 1]][Flat(j, i, n)] == m.buffer[Flat(i, j, n)]
      {
        FlatBound(j, i, m.nrow, n);
        if Flat(i, j, n) == p - 1 {
          FlatInjective(i, j, i0, j0, n);
        } else if Flat(j, i, n) == k {
          FlatInjective(j, i, j0, i0, n);
        }
      }
    }
  }

  /** For square matrices `transpose()` as written is defined and is the
      transpose. */
  lemma TransposeAsWrittenSquare(m: Matrix)
    requires Valid(m) && m.nrow == m.ncol
    ensures TransposeAsWritten(m).Some? && IsTransposeOf(TransposeAsWritten(m).value, m)
  {
    var buf := seq(Size(m), _ => 0);
    TransposeFillSquare(m, buf, Size(m));
    FlatBoundAll(m.nrow, m.ncol);
  }

  /** `transpose()` as intended: the result is allocated `ncol x nrow` and
      `ret(j, i) = (*this)(i, j)` for every element. */
  method Transpose(m: Matrix) returns (r: Matrix)
    requires Valid(m)
    ensures IsTransposeOf(r, m) && r.nflo == 0
  {
    r := New(m.ncol, m.nrow);
    var i: nat := 0;
    while i < m.nrow
      invariant i <= m.nrow
      invariant Valid(r) && r.nrow == m.ncol && r.ncol == m.nrow && r.nflo == 0
      invariant forall i': nat, j': nat :: i' < i && j' < m.ncol ==> Get(r, j', i') == Get(m, i', j')
    {
      var j: nat := 0;
      while j < m.ncol
        invariant j <= m.ncol
        invariant Valid(r) && r.nrow == m.ncol && r.ncol == m.nrow && r.nflo == 0
        invariant forall i': nat, j': nat :: (i' < i || (i' == i && j' < j)) && j' < m.ncol ==>
          Get(r, j', i') == Get(m, i', j')
      {
        GetSet(r, j, i, Get(m, i, j));
        r := Set(r, j, i, Get(m, i, j));
        j := j + 1;
      }
      i := i + 1;
    }
  }

  /** The element loops of `operator==` as written, from element (i, j) on:
      element (i, j) of `a` is compared with the cell of `b` at `b`'s own
      offset `i * b.ncol + j`. `None` marks a read past the end of `b`'s
      buffer (undefined behaviour in the source). */
  function EqualScan(a: Matrix, b: Matrix, i: nat, j: nat): Option<bool>
    requires Valid(a) && Valid(b)
    decreases a.nrow - i, a.ncol - j
  {
    if i >= a.nrow then Some(true)
    else if j >= a.ncol then EqualScan(a, b, i + 1, 0)
    else
      var q := Flat(i, j, b.ncol);
      if q >= |b.buffer| then None
      else if Get(a, i, j) != b.buffer[q] then Some(false)
      else EqualScan(a, b, i, j + 1)
  }

  /** `operator==` as written: it answers false early only when
      `ncol1 != ncol2 && nrow1 != ncol2`, then compares element by element
      over the first matrix's shape. */
  function EqualAsWritten(a: Matrix, b: Matrix): Option<bool>
    requires Valid(a) && Valid(b)
  {
    if a.ncol != b.ncol && a.nrow != b.ncol then Some(false)
    else EqualScan(a, b, 0, 0)
  }

  /** Element (i', j') comes at or after (i, j) in the loops' order. */
  predicate AtOrAfter(i': nat, j': nat, i: nat, j: nat) {
    i' > i || (i' == i && j' >= j)
  }

  lemma {:induction false} EqualScanSameShape(a: Matrix, b: Matrix, i: nat, j: nat)
    requires Valid(a) && Valid(b) && a.nrow == b.nrow && a.ncol == b.ncol
    ensures EqualScan(a, b, i, j) == Some(forall i': nat, j': nat ::
      i' < a.nrow && j' < a.ncol && AtOrAfter(i', j', i, j) ==> Get(a, i', j') == Get(b, i', j'))
    decreases a.nrow - i, a.ncol - j
  {
    if i >= a.nrow {
    } else if j >= a.ncol {
      EqualScanSameShape(a, b, i + 1, 0);
    } else {
      FlatBound(i, j, a.nrow, a.ncol);
      EqualScanSameShape(a, b, i, j + 1);
    }
  }

  /** For matrices of the same shape the operator as written is defined and
      answers exactly whether all elements are equal. */
  lemma EqualAsWrittenSameShape(a: Matrix, b: Matrix)
    requires Valid(a) && Valid(b) && a.nrow == b.nrow && a.ncol == b.ncol
    ensures EqualAsWritten(a, b) == Some(a.buffer == b.buffer)
  {
    EqualScanSameShape(a, b, 0, 0);
    if forall i': nat, j': nat :: i' < a.nrow && j' < a.ncol ==> Get(a, i', j') == Get(b, i', j') {
      SameElementsSameBuffer(a, b);
    }
  }

  /** The shape guard as written lets a 1 x 2 matrix equal the 2 x 1
      matrix holding the same cells. */
  lemma EqualAsWrittenMixesShapes(x: int, y: int)
    ensures EqualAsWritten(Matrix(1, 2, [x, y], 0), Matrix(2, 1, [x, y], 0)) == Some(true)
  {
    var a := Matrix(1, 2, [x, y], 0);
    var b := Matrix(2, 1, [x, y], 0);
    assert EqualScan(a, b, 0, 2) == Some(true);
    assert EqualScan(a, b, 0, 1) == Some(true);
    assert EqualScan(a, b, 0, 0) == Some(true);
  }

  /** The shape guard as written lets a constant 2 x 3 matrix be compared
      against a 2 x 2 one holding the same constant, and the scan reads past
      the end of the second buffer. */
  lemma EqualAsWrittenReadsPastEnd(v: int)
    ensures EqualAsWritten(Matrix(2, 3, [v, v, v, v, v, v], 0), Matrix(2, 2, [v, v, v, v], 0)) == None
  {
    var c := Matrix(2, 3, [v, v, v, v, v, v], 0);
    var d := Matrix(2, 2, [v, v, v, v], 0);
    assert EqualScan(c, d, 1, 2) == None;
    assert EqualScan(c, d, 1, 1) == None;
    assert EqualScan(c, d, 1, 0) == None;
    assert EqualScan(c, d, 0, 3) == None;
    assert EqualScan(c, d, 0, 2) == None;
    assert EqualScan(c, d, 0, 1) == None;
    assert EqualScan(c, d, 0, 0) == None;
  }

  /** `operator==` as evidently intended: false when the shapes differ,
      otherwise an element-by-element comparison that stops at the first
      difference. True exactly when the shapes and all cells agree. */
  method Equal(a: Matrix, b: Matrix) returns (eq: bool)
    requires Valid(a) && Valid(b)
    ensures eq <==> a.nrow == b.nrow && a.ncol == b.ncol && a.buffer == b.buffer
  {
    if a.nrow != b.nrow || a.ncol != b.ncol {
      return false;
    }
    var i: nat := 0;
    while i < a.nrow
      invariant i <= a.nrow
      invariant forall i': nat, j': nat :: i' < i && j' < a.ncol ==> Get(a, i', j') == Get(b, i', j')
    {
      var j: nat := 0;
      while j < a.ncol
        invariant j <= a.ncol
        invariant forall i': nat, j': nat :: (i' < i || (i' == i && j' < j)) && j' < a.ncol ==>
          Get(a, i', j') == Get(b, i', j')
      {
        if Get(a, i, j) != Get(b, i, j) {
          return false;
        }
        j := j + 1;
      }
      i := i + 1;
    }
    SameElementsSameBuffer(a, b);
    return true;
  }

  /** `operator!=` as written: the negation of `operator==` as written, so it
      inherits its shape guard and its reads past the end (`None`). On
      matrices of the same shape it answers whether some cell differs. */
  function NotEqualAsWritten(a: Matrix, b: Matrix): (r: Option<bool>)
    requires Valid(a) && Valid(b)
    ensures a.nrow == b.nrow && a.ncol == b.ncol ==> r == Some(a.buffer != b.buffer)
  {
    if a.nrow == b.nrow && a.ncol == b.ncol then
      EqualAsWrittenSameShape(a, b);
      Some(!EqualAsWritten(a, b).value)
    else match EqualAsWritten(a, b)
      case None => None
      case Some(eq) => Some(!eq)
  }

  /** Through the shape guard, `operator!=` as written says a 1 x 2 matrix
      is not different from the 2 x 1 matrix holding the same cells. */
  lemma NotEqualAsWrittenMixesShapes(x: int, y: int)
    ensures NotEqualAsWritten(Matrix(1, 2, [x, y], 0), Matrix(2, 1, [x, y], 0)) == Some(false)
  {
    EqualAsWrittenMixesShapes(x, y);
  }

  /** `operator!=` as evidently intended: the negation of the corrected
      `operator==`. */
  method NotEqual(a: Matrix, b: Matrix) returns (ne: bool)
    requires Valid(a) && Valid(b)
    ensures ne <==> !(a.nrow == b.nrow && a.ncol == b.ncol && a.buffer == b.buffer)
  {
    var eq := Equal(a, b);
    ne := !eq;
  }

  /** The value `initialize` writes at (i, j): `j` on even rows, the
      reversed column index on odd rows. */
  function InitialValue(ncol: nat, i: nat, j: nat): int {
    if i % 2 == 0 then j else ncol - 1 - j
  }

  /** `initialize`: overwrites every element; each even row counts up
      0 .. ncol-1, each odd row counts down, so every value is a column index. */
  method Initialize(m: Matrix) returns (r: Matrix)
    requires Valid(m)
    ensures Valid(r) && SameShape(r, m)
    ensures forall i: nat, j: nat :: i < m.nrow && j < m.ncol ==>
      Get(r, i, j) == InitialValue(m.ncol, i, j) && 0 <= Get(r, i, j) < m.ncol
  {
    r := m;
    var i: nat := 0;
    while i < m.nrow
      invariant i <= m.nrow
      invariant Valid(r) && SameShape(r, m)
      invariant forall i': nat, j': nat :: i' < i && j' < m.ncol ==> Get(r, i', j') == InitialValue(m.ncol, i', j')
    {
      var j: nat := 0;
      while j < m.ncol
        invariant j <= m.ncol
        invariant Valid(r) && SameShape(r, m)
        invariant forall i': nat, j': nat :: (i' < i || (i' == i && j' < j)) && j' < m.ncol ==>
          Get(r, i', j') == InitialValue(m.ncol, i', j')
      {
        var v: int;
        if i % 2 == 0 {
          v := j;
        } else {
          v := m.ncol - 1 - j;
        }
        GetSet(r, i, j, v);
        r := Set(r, i, j, v);
        j := j + 1;
      }
      i := i + 1;
    }
  }
}
