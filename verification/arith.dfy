/** Arithmetic on flat offsets `row * stride + col`, the one formula every
    dense buffer in the model is indexed by. */
module Arith {

  /** The offset of cell (i, j) of a grid stored with `stride` cells per row. */
  function Flat(i: nat, j: nat, stride: nat): nat {
    i * stride + j
  }

  lemma MulLeftMono(a: nat, b: nat, c: nat)
    requires a <= b
    ensures a * c <= b * c
  {
  }

  /** In-range coordinates give an in-range offset. */
  lemma FlatBound(i: nat, j: nat, rows: nat, stride: nat)
    requires i < rows && j < stride
    ensures Flat(i, j, stride) < rows * stride
  {
    assert Flat(i, j, stride) < (i + 1) * stride;
    MulLeftMono(i + 1, rows, stride);
  }

  /** `FlatBound` for every cell at once. */
  lemma FlatBoundAll(rows: nat, stride: nat)
    ensures forall i: nat, j: nat :: i < rows && j < stride ==> Flat(i, j, stride) < rows * stride
  {
    forall i: nat, j: nat | i < rows && j < stride
      ensures Flat(i, j, stride) < rows * stride
    {
      FlatBound(i, j, rows, stride);
    }
  }

  /** Distinct cells have distinct offsets. */
  lemma FlatInjective(i1: nat, j1: nat, i2: nat, j2: nat, stride: nat)
    requires j1 < stride && j2 < stride
    requires Flat(i1, j1, stride) == Flat(i2, j2, stride)
    ensures i1 == i2 && j1 == j2
  {
    if i1 < i2 {
      MulLeftMono(i1 + 1, i2, stride);
      assert false;
    } else if i2 < i1 {
      MulLeftMono(i2 + 1, i1, stride);
      assert false;
    }
  }

  /** `FlatInjective` for every pair of cells at once. */
  lemma FlatInjectiveAll(stride: nat)
    ensures forall i1: nat, j1: nat, i2: nat, j2: nat ::
      j1 < stride && j2 < stride && Flat(i1, j1, stride) == Flat(i2, j2, stride) ==> i1 == i2 && j1 == j2
  {
    forall i1: nat, j1: nat, i2: nat, j2: nat | j1 < stride && j2 < stride && Flat(i1, j1, stride) == Flat(i2, j2, stride)
      ensures i1 == i2 && j1 == j2
    {
      FlatInjective(i1, j1, i2, j2, stride);
    }
  }

  /** Every in-range offset is the offset of exactly the cell (k / stride, k % stride). */
  lemma FlatOnto(k: nat, rows: nat, stride: nat)
    requires k < rows * stride
    ensures stride > 0
    ensures k / stride < rows && k % stride < stride
    ensures Flat(k / stride, k % stride, stride) == k
  {
    if k / stride >= rows {
      MulLeftMono(rows, k / stride, stride);
      assert false;
    }
  }

  /** The cell an in-range offset belongs to. */
  lemma Unflat(k: nat, rows: nat, stride: nat) returns (i: nat, j: nat)
    requires k < rows * stride
    ensures i < rows && j < stride && Flat(i, j, stride) == k
  {
    FlatOnto(k, rows, stride);
    i, j := k / stride, k % stride;
  }

  /** Division and remainder recover the coordinates of an offset. */
  lemma FlatDivMod(i: nat, j: nat, stride: nat)
    requires j < stride
    ensures Flat(i, j, stride) / stride == i
    ensures Flat(i, j, stride) % stride == j
  {
    var k := Flat(i, j, stride);
    FlatOnto(k, i + 1, stride);
    FlatInjective(k / stride, k % stride, i, j, stride);
  }

  /** Tile `t` of size `T` lies inside a dimension `n` of which there are
      `n / T` full tiles. */
  lemma TileFits(t: nat, n: nat, T: nat)
    requires T > 0 && t < n / T
    ensures t * T + T <= n
    ensures (t + 1) * T == t * T + T
  {
    MulLeftMono(t + 1, n / T, T);
  }

  /** The part of a dimension `n` covered by its `n / T` full tiles of size
      `T`: never more than `n`, and all of it exactly when `T` divides `n`. */
  function TiledExtent(n: nat, T: nat): (c: nat)
    requires T > 0
    ensures c <= n && n - c < T
    ensures c == n <==> n % T == 0
  {
    (n / T) * T
  }
}
