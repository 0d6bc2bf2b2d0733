/** The dense matrix of nsd/04matrix/code/la01_gesv.cpp, repeated verbatim in
    la04_gesvd.cpp: an `nrow` x `ncol` matrix of doubles whose storage order
    (row-major or column-major) is chosen at construction, owning one flat heap
    buffer of `nrow * ncol` cells that is handed to LAPACK as it is. */
module Layout {
  import opened Errors
  import opened Arith

  /** An address returned by `new double[]`. */
  type Addr = nat

  /** The owned buffer: `Null` is `nullptr`; a `Heap` block is the address and
      the cells of a `new double[n]` allocation. */
  datatype Buffer = Null | Heap(addr: Addr, cells: seq<real>)

  datatype Matrix = Matrix(nrow: nat, ncol: nat, columnMajor: bool, buffer: Buffer)

  function Size(m: Matrix): nat {
    m.nrow * m.ncol
  }

  /** What the constructors establish: exactly `nrow * ncol` cells, and no
      block at all when that product is zero. */
  predicate Valid(m: Matrix) {
    if Size(m) == 0 then m.buffer.Null? else m.buffer.Heap? && |m.buffer.cells| == Size(m)
  }

  /** Same shape, storage order and buffer block: only cell values may differ. */
  predicate SameBlock(a: Matrix, b: Matrix) {
    a.nrow == b.nrow && a.ncol == b.ncol && a.columnMajor == b.columnMajor
    && a.buffer.Heap? == b.buffer.Heap? && (a.buffer.Heap? ==> a.buffer.addr == b.buffer.addr)
  }

  /** The physical offset of logical element (row, col). */
  function Index(m: Matrix, row: nat, col: nat): nat {
    if m.columnMajor then Flat(col, row, m.nrow) else Flat(row, col, m.ncol)
  }

  /** The logical element stored at physical offset `k`: the inverse of `Index`. */
  function Unindex(m: Matrix, k: nat): (rc: (nat, nat))
    requires k < Size(m)
  {
    if m.columnMajor then
      FlatOnto(k, m.ncol, m.nrow);
      (k % m.nrow, k / m.nrow)
    else
      FlatOnto(k, m.nrow, m.ncol);
      (k / m.ncol, k % m.ncol)
  }

  lemma IndexInBounds(m: Matrix, row: nat, col: nat)
    requires row < m.nrow && col < m.ncol
    ensures Index(m, row, col) < Size(m)
  {
    if m.columnMajor {
      FlatBound(col, row, m.ncol, m.nrow);
    } else {
      FlatBound(row, col, m.nrow, m.ncol);
    }
  }

  lemma IndexInjective(m: Matrix, r1: nat, c1: nat, r2: nat, c2: nat)
    requires r1 < m.nrow && c1 < m.ncol && r2 < m.nrow && c2 < m.ncol
    requires Index(m, r1, c1) == Index(m, r2, c2)
    ensures r1 == r2 && c1 == c2
  {
    if m.columnMajor {
      FlatInjective(c1, r1, c2, r2, m.nrow);
    } else {
      FlatInjective(r1, c1, r2, c2, m.ncol);
    }
  }

  /** `Index` is a bijection between the logical grid and the offsets
      `0 .. nrow * ncol - 1`, in either storage order. */
  lemma IndexBijection(m: Matrix)
    ensures forall row: nat, col: nat :: row < m.nrow && col < m.ncol ==>
      Index(m, row, col) < Size(m) && Unindex(m, Index(m, row, col)) == (row, col)
    ensures forall k: nat :: k < Size(m) ==>
      Unindex(m, k).0 < m.nrow && Unindex(m, k).1 < m.ncol && Index(m, Unindex(m, k).0, Unindex(m, k).1) == k
  {
    forall row: nat, col: nat | row < m.nrow && col < m.ncol
      ensures Index(m, row, col) < Size(m) && Unindex(m, Index(m, row, col)) == (row, col)
    {
      IndexInBounds(m, row, col);
      if m.columnMajor {
        FlatDivMod(col, row, m.nrow);
      } else {
        FlatDivMod(row, col, m.ncol);
      }
    }
    forall k: nat | k < Size(m)
      ensures Unindex(m, k).0 < m.nrow && Unindex(m, k).1 < m.ncol && Index(m, Unindex(m, k).0, Unindex(m, k).1) == k
    {
      if m.columnMajor {
        FlatOnto(k, m.ncol, m.nrow);
      } else {
        FlatOnto(k, m.nrow, m.ncol);
      }
    }
  }

  /** `operator()(row, col)` read. */
  function Get(m: Matrix, row: nat, col: nat): real
    requires Valid(m) && row < m.nrow && col < m.ncol
  {
    IndexInBounds(m, row, col);
    m.buffer.cells[Index(m, row, col)]
  }

  /** `operator()(row, col) = v`: writes one cell of the same block. */
  function Set(m: Matrix, row: nat, col: nat, v: real): (r: Matrix)
    requires Valid(m) && row < m.nrow && col < m.ncol
    ensures Valid(r) && SameBlock(r, m)
    ensures Get(r, row, col) == v
  {
    IndexInBounds(m, row, col);
    m.(buffer := m.buffer.(cells := m.buffer.cells[Index(m, row, col) := v]))
  }

  /** A write to (row, col) leaves every other logical element as it was. */
  lemma GetSet(m: Matrix, row: nat, col: nat, v: real)
    requires Valid(m) && row < m.nrow && col < m.ncol
    ensures forall r: nat, c: nat :: r < m.nrow && c < m.ncol ==>
      Get(Set(m, row, col, v), r, c) == if r == row && c == col then v else Get(m, r, c)
  {
    forall r: nat, c: nat | r < m.nrow && c < m.ncol
      ensures Get(Set(m, row, col, v), r, c) == if r == row && c == col then v else Get(m, r, c)
    {
      IndexInBounds(m, r, c);
      IndexInBounds(m, row, col);
      if r != row || c != col {
        if Index(m, r, c) == Index(m, row, col) {
          IndexInjective(m, r, c, row, col);
        }
        assert Index(m, r, c) != Index(m, row, col);
      }
    }
  }

  /** Two matrices with the same shape and storage order that agree on every
      logical element hold the same cells. */
  lemma SameElementsSameCells(a: Matrix, b: Matrix)
    requires Valid(a) && Valid(b)
    requires a.nrow == b.nrow && a.ncol == b.ncol && a.columnMajor == b.columnMajor
    requires forall r: nat, c: nat :: r < a.nrow && c < a.ncol ==> Get(a, r, c) == Get(b, r, c)
    ensures a.buffer.Heap? ==> a.buffer.cells == b.buffer.cells
  {
    if a.buffer.Heap? {
      IndexBijection(a);
      forall k | 0 <= k < Size(a)
        ensures a.buffer.cells[k] == b.buffer.cells[k]
      {
        var rc := Unindex(a, k);
        assert Get(a, rc.0, rc.1) == Get(b, rc.0, rc.1);
      }
    }
  }

  /** Fresh cells of `new double[n]`; their values are indeterminate in the
      source and zero here (no property depends on them). */
  function FreshCells(n: nat): seq<real> {
    seq(n, _ => 0.0)
  }

  /** `reset_buffer(nrow, ncol)`: frees the old block, sets the dimensions and
      allocates `nrow * ncol` cells at `addr`, or none when that product is 0.
      The storage order is untouched. */
  function ResetBuffer(m: Matrix, nrow: nat, ncol: nat, addr: Addr): (r: Matrix)
    ensures Valid(r)
    ensures r.nrow == nrow && r.ncol == ncol && r.columnMajor == m.columnMajor
    ensures r.buffer.Null? <==> nrow * ncol == 0
    ensures r.buffer.Heap? ==> r.buffer.addr == addr
  {
    var nelement := nrow * ncol;
    Matrix(nrow, ncol, m.columnMajor, if nelement != 0 then Heap(addr, FreshCells(nelement)) else Null)
  }

  /** `Matrix(nrow, ncol, column_major)`. */
  function New(nrow: nat, ncol: nat, columnMajor: bool, addr: Addr): (r: Matrix)
    ensures Valid(r) && r.nrow == nrow && r.ncol == ncol && r.columnMajor == columnMajor
    ensures r.buffer.Heap? ==> r.buffer.addr == addr
  {
    ResetBuffer(Matrix(nrow, ncol, columnMajor, Null), nrow, ncol, addr)
  }

  /** `operator=(std::vector<double> const &)`: throws `out_of_range` when the
      vector does not hold exactly `size()` values, before writing anything;
      otherwise writes the vector in logical row-major order into the block
      the matrix already owns, whatever its storage order. */
  method AssignVector(m: Matrix, vec: seq<real>) returns (r: Result<Matrix>)
    requires Valid(m)
    ensures r.Err? <==> |vec| != Size(m)
    ensures r.Err? ==> r.error == OutOfRange
    ensures r.Ok? ==> Valid(r.value) && SameBlock(r.value, m)
    ensures r.Ok? ==> forall i: nat, j: nat :: i < m.nrow && j < m.ncol ==>
      Flat(i, j, m.ncol) < |vec| && Get(r.value, i, j) == vec[Flat(i, j, m.ncol)]
  {
    if Size(m) != |vec| {
      return Err(OutOfRange);
    }
    FlatBoundAll(m.nrow, m.ncol);
    var cur := m;
    var k: nat := 0;
    var i: nat := 0;
    while i < m.nrow
      invariant i <= m.nrow && k == i * m.ncol
      invariant Valid(cur) && SameBlock(cur, m)
      invariant forall i': nat, j': nat :: i' < i && j' < m.ncol ==> Get(cur, i', j') == vec[Flat(i', j', m.ncol)]
    {
      var j: nat := 0;
      while j < m.ncol
        invariant j <= m.ncol && k == Flat(i, j, m.ncol)
        invariant Valid(cur) && SameBlock(cur, m)
        invariant forall i': nat, j': nat :: (i' < i || (i' == i && j' < j)) && j' < m.ncol ==>
          Get(cur, i', j') == vec[Flat(i', j', m.ncol)]
      {
        GetSet(cur, i, j, vec[k]);
        cur := Set(cur, i, j, vec[k]);
        k := k + 1;
        j := j + 1;
      }
      i := i + 1;
    }
    return Ok(cur);
  }

  /** `Matrix(nrow, ncol, column_major, vec)`: construct, then assign the vector. */
  method NewFromVector(nrow: nat, ncol: nat, columnMajor: bool, vec: seq<real>, addr: Addr) returns (r: Result<Matrix>)
    ensures r.Err? <==> |vec| != nrow * ncol
    ensures r.Err? ==> r.error == OutOfRange
    ensures r.Ok? ==> Valid(r.value) && r.value.nrow == nrow && r.value.ncol == ncol && r.value.columnMajor == columnMajor
    ensures r.Ok? ==> forall i: nat, j: nat :: i < nrow && j < ncol ==>
      Flat(i, j, ncol) < |vec| && Get(r.value, i, j) == vec[Flat(i, j, ncol)]
  {
    r := AssignVector(New(nrow, ncol, columnMajor, addr), vec);
  }

  /** The element-copy loop shared by the copy constructor and copy
      assignment: `(*this)(i, j) = other(i, j)` for every logical element,
      through each matrix's own index map. */
  method CopyElements(dst: Matrix, src: Matrix) returns (r: Matrix)
    requires Valid(dst) && Valid(src) && dst.nrow == src.nrow && dst.ncol == src.ncol
    ensures Valid(r) && SameBlock(r, dst)
    ensures forall i: nat, j: nat :: i < src.nrow && j < src.ncol ==> Get(r, i, j) == Get(src, i, j)
  {
    r := dst;
    var i: nat := 0;
    while i < dst.nrow
      invariant i <= dst.nrow
      invariant Valid(r) && SameBlock(r, dst)
      invariant forall i': nat, j': nat :: i' < i && j' < dst.ncol ==> Get(r, i', j') == Get(src, i', j')
    {
      var j: nat := 0;
      while j < dst.ncol
        invariant j <= dst.ncol
        invariant Valid(r) && SameBlock(r, dst)
        invariant forall i': nat, j': nat :: (i' < i || (i' == i && j' < j)) && j' < dst.ncol ==>
          Get(r, i', j') == Get(src, i', j')
      {
        GetSet(r, i, j, Get(src, i, j));
        r := Set(r, i, j, Get(src, i, j));
        j := j + 1;
      }
      i := i + 1;
    }
  }

  /** The copy constructor: same shape and storage order, a newly allocated
      block at `addr` holding exactly the source's cells. `addr` is what
      `new double[]` returns, so it is not the address of `other`'s live
      block, and the copy never shares storage with its source. */
  method CopyConstruct(other: Matrix, addr: Addr) returns (r: Matrix)
    requires Valid(other)
    requires other.buffer.Heap? ==> addr != other.buffer.addr
    ensures Valid(r)
    ensures r.nrow == other.nrow && r.ncol == other.ncol && r.columnMajor == other.columnMajor
    ensures forall i: nat, j: nat :: i < other.nrow && j < other.ncol ==> Get(r, i, j) == Get(other, i, j)
    ensures r.buffer.Heap? ==> r.buffer.addr == addr && r.buffer.cells == other.buffer.cells
    ensures r.buffer.Heap? && other.buffer.Heap? ==> r.buffer.addr != other.buffer.addr
  {
    var blank := Matrix(other.nrow, other.ncol, other.columnMajor, Null);
    var reset := ResetBuffer(blank, other.nrow, other.ncol, addr);
    r := CopyElements(reset, other);
    SameElementsSameCells(r, other);
  }

  /** Copy assignment. `aliased` stands for `this == &other`, which makes it a
      no-op. Otherwise the block is reallocated at `addr` only when the
      dimensions differ; the target keeps its own storage order and takes
      every logical element of `other`. A reallocated block comes from
      `new double[]` while `other`'s block is live, so it is not `other`'s. */
  method CopyAssign(m: Matrix, other: Matrix, aliased: bool, addr: Addr) returns (r: Matrix)
    requires Valid(m) && Valid(other)
    requires aliased ==> m == other
    requires (m.nrow != other.nrow || m.ncol != other.ncol) && other.buffer.Heap? ==> addr != other.buffer.addr
    ensures aliased ==> r == m
    ensures Valid(r)
    ensures r.nrow == other.nrow && r.ncol == other.ncol && r.columnMajor == m.columnMajor
    ensures forall i: nat, j: nat :: i < other.nrow && j < other.ncol ==> Get(r, i, j) == Get(other, i, j)
    ensures m.nrow == other.nrow && m.ncol == other.ncol ==> SameBlock(r, m)
    ensures (m.nrow != other.nrow || m.ncol != other.ncol) && r.buffer.Heap? ==> r.buffer.addr == addr
    ensures (m.nrow != other.nrow || m.ncol != other.ncol) && r.buffer.Heap? && other.buffer.Heap? ==>
      r.buffer.addr != other.buffer.addr
    ensures m.columnMajor == other.columnMajor && r.buffer.Heap? ==> r.buffer.cells == other.buffer.cells
  {
    if aliased {
      return m;
    }
    var cur := m;
    if m.nrow != other.nrow || m.ncol != other.ncol {
      cur := ResetBuffer(m, other.nrow, other.ncol, addr);
    }
    r := CopyElements(cur, other);
    if m.columnMajor == other.columnMajor {
      SameElementsSameCells(r, other);
    }
  }

  /** The move constructor as written: it copies the dimensions and the
      storage order, then calls `reset_buffer(0, 0)` (which zeroes the
      dimensions it just copied) and swaps buffers. The new matrix owns the
      source's block yet reports 0 x 0; the source keeps its dimensions but
      no block. Returns (new matrix, source afterwards). */
  function MoveConstruct(other: Matrix): (r: (Matrix, Matrix))
    ensures r.0.nrow == 0 && r.0.ncol == 0 && r.0.columnMajor == other.columnMajor
    ensures r.0.buffer == other.buffer
    ensures r.1.nrow == other.nrow && r.1.ncol == other.ncol && r.1.columnMajor == other.columnMajor
    ensures r.1.buffer == Null
  {
    var self := Matrix(other.nrow, other.ncol, other.columnMajor, Null);
    var self' := ResetBuffer(self, 0, 0, 0);
    (self'.(buffer := other.buffer), other.(buffer := self'.buffer))
  }

  /** As written, moving out of any non-empty matrix produces a matrix that
      breaks the class invariant (a block but a zero size) and leaves the
      source claiming a shape it has no block for. */
  lemma MoveConstructBreaksInvariant(other: Matrix)
    requires Valid(other) && Size(other) > 0
    ensures !Valid(MoveConstruct(other).0) && !Valid(MoveConstruct(other).1)
  {
  }

  /** The concrete case: moving out of a 1 x 1 matrix. */
  lemma MoveConstructOneByOne()
    ensures var src := New(1, 1, true, 7);
      MoveConstruct(src).0.nrow == 0 && MoveConstruct(src).0.buffer == Heap(7, [0.0])
      && MoveConstruct(src).1.nrow == 1 && MoveConstruct(src).1.buffer == Null
  {
  }

  /** The move constructor as evidently intended (and as the row-major
      matrix of nsd/05cache/code/03_matrix_matrix.cpp writes it): swap the
      dimensions along with the buffer, so the new matrix is the old one and
      the source is an empty 0 x 0 matrix. */
  function MoveConstructIntended(other: Matrix): (r: (Matrix, Matrix))
    requires Valid(other)
    ensures Valid(r.0) && Valid(r.1)
    ensures r.0.nrow == other.nrow && r.0.ncol == other.ncol && r.0.columnMajor == other.columnMajor
    ensures r.0.buffer == other.buffer
    ensures forall i: nat, j: nat :: i < other.nrow && j < other.ncol ==> Get(r.0, i, j) == Get(other, i, j)
    ensures r.1.nrow == 0 && r.1.ncol == 0 && r.1.buffer == Null
  {
    var self := ResetBuffer(Matrix(other.nrow, other.ncol, other.columnMajor, Null), 0, 0, 0);
    (self.(nrow := other.nrow, ncol := other.ncol, buffer := other.buffer),
     other.(nrow := self.nrow, ncol := self.ncol, buffer := self.buffer))
  }

  /** Move assignment. `aliased` stands for `this == &other` (a no-op).
      Otherwise the target frees its block, swaps dimensions and buffer with
      the source and takes the source's storage order: the target becomes the
      source, the source an empty 0 x 0 matrix. Returns (target, source). */
  function MoveAssign(m: Matrix, other: Matrix, aliased: bool): (r: (Matrix, Matrix))
    requires aliased ==> m == other
    ensures aliased ==> r == (m, other)
    ensures !aliased ==> r.0 == other
    ensures !aliased ==> r.1.nrow == 0 && r.1.ncol == 0 && r.1.buffer == Null
    ensures Valid(other) ==> Valid(r.0) && Valid(r.1)
  {
    if aliased then (m, other)
    else
      var self := ResetBuffer(m, 0, 0, 0);
      var self' := self.(nrow := other.nrow, ncol := other.ncol, buffer := other.buffer);
      var other' := other.(nrow := self.nrow, ncol := self.ncol, buffer := self.buffer);
      (self'.(columnMajor := other'.columnMajor), other')
  }

  /** The destructor: `reset_buffer(0, 0)`; running it twice is harmless. */
  function Destroy(m: Matrix): (r: Matrix)
    ensures Valid(r) && r.nrow == 0 && r.ncol == 0 && r.buffer == Null
  {
    ResetBuffer(m, 0, 0, 0)
  }

  lemma DestroyIdempotent(m: Matrix)
    ensures Destroy(Destroy(m)) == Destroy(m)
  {
  }

  /** The leading dimension passed to LAPACK: `nrow` for column-major
      storage (dgesv_ / dgesvd_), `ncol` for row-major (LAPACKE_dgesv with
      LAPACK_ROW_MAJOR). */
  function LeadingDimension(m: Matrix): nat {
    if m.columnMajor then m.nrow else m.ncol
  }

  /** The leading dimension is the stride `Index` steps by when the slower
      index advances: the next column for column-major, the next row for
      row-major. */
  lemma LeadingDimensionIsStride(m: Matrix, row: nat, col: nat)
    ensures m.columnMajor ==> Index(m, row, col + 1) == Index(m, row, col) + LeadingDimension(m)
    ensures !m.columnMajor ==> Index(m, row + 1, col) == Index(m, row, col) + LeadingDimension(m)
  {
  }

  /** The same logical contents stored row-major and column-major give
      buffers that are transposes of each other. */
  lemma StorageOrdersTranspose(rm: Matrix, cm: Matrix)
    requires Valid(rm) && Valid(cm) && !rm.columnMajor && cm.columnMajor
    requires rm.nrow == cm.nrow && rm.ncol == cm.ncol
    requires forall i: nat, j: nat :: i < rm.nrow && j < rm.ncol ==> Get(rm, i, j) == Get(cm, i, j)
    ensures forall i: nat, j: nat :: i < rm.nrow && j < rm.ncol ==>
      Flat(i, j, rm.ncol) < Size(rm) && Flat(j, i, rm.nrow) < Size(rm)
      && rm.buffer.cells[Flat(i, j, rm.ncol)] == cm.buffer.cells[Flat(j, i, rm.nrow)]
  {
    forall i: nat, j: nat | i < rm.nrow && j < rm.ncol
      ensures Flat(i, j, rm.ncol) < Size(rm) && Flat(j, i, rm.nrow) < Size(rm)
        && rm.buffer.cells[Flat(i, j, rm.ncol)] == cm.buffer.cells[Flat(j, i, rm.nrow)]
    {
      IndexInBounds(rm, i, j);
      IndexInBounds(cm, i, j);
      assert Get(rm, i, j) == Get(cm, i, j);
    }
  }

  /** The coefficient matrix `main` fills element by element before calling
      dgesv_, in the given storage order: the row-major buffer lists the
      rows, the column-major buffer (what dgesv_ reads with lda = nrow)
      lists the columns. */
  function GesvExample(columnMajor: bool, addr: Addr): (r: Matrix)
    ensures Valid(r) && r.nrow == 3 && r.ncol == 3 && r.columnMajor == columnMajor
    ensures r.buffer.Heap? && r.buffer.addr == addr
    ensures !columnMajor ==> r.buffer.cells == [3.0, 5.0, 2.0, 2.0, 1.0, 3.0, 4.0, 3.0, 2.0]
    ensures columnMajor ==> r.buffer.cells == [3.0, 2.0, 4.0, 5.0, 1.0, 3.0, 2.0, 3.0, 2.0]
  {
    var m0 := New(3, 3, columnMajor, addr);
    var m1 := Set(Set(Set(m0, 0, 0, 3.0), 0, 1, 5.0), 0, 2, 2.0);
    var m2 := Set(Set(Set(m1, 1, 0, 2.0), 1, 1, 1.0), 1, 2, 3.0);
    Set(Set(Set(m2, 2, 0, 4.0), 2, 1, 3.0), 2, 2, 2.0)
  }

  /** The 3 x 4 column-major matrix `main` hands to dgesvd_: every one of
      the twelve offsets is written exactly once, column by column, with
      leading dimension 3. */
  function GesvdExample(addr: Addr): (r: Matrix)
    ensures Valid(r) && r.nrow == 3 && r.ncol == 4 && r.columnMajor
    ensures LeadingDimension(r) == 3
    ensures r.buffer.Heap? && r.buffer.addr == addr
    ensures r.buffer.cells == [3.0, 2.0, 4.0, 5.0, 1.0, 3.0, 2.0, 3.0, 2.0, 6.0, 2.0, 4.0]
  {
    var m0 := New(3, 4, true, addr);
    var m1 := Set(Set(Set(Set(m0, 0, 0, 3.0), 0, 1, 5.0), 0, 2, 2.0), 0, 3, 6.0);
    var m2 := Set(Set(Set(Set(m1, 1, 0, 2.0), 1, 1, 1.0), 1, 2, 3.0), 1, 3, 2.0);
    Set(Set(Set(Set(m2, 2, 0, 4.0), 2, 1, 3.0), 2, 2, 2.0), 2, 3, 4.0)
  }
}
