/** The least-squares set-up of nsd/11arraydesign/code/data_prep.cpp:
    `fit_poly` builds the normal equations of a polynomial fit and hands them
    to a linear solver, and `fit_polys` partitions sorted samples into unit
    intervals and fits each one. Values are exact reals; the solver is a
    parameter. */
module PolyFit {
  import opened Errors

  /** What the linear solver returns: a solution, or a failure status
      (`xt::linalg::solve` throws on a singular system). */
  datatype SolveOutcome = Solved(x: seq<real>) | Failed(status: int)

  /** The solver, `xt::linalg::solve(matrix, rhs)`, whose internals are not
      part of this model. */
  type Solver = (seq<seq<real>>, seq<real>) -> SolveOutcome

  /** `pow(x, e)` for a non-negative integer exponent. */
  function Pow(x: real, e: nat): real {
    if e == 0 then 1.0 else x * Pow(x, e - 1)
  }

  lemma {:induction false} PowAdd(x: real, i: nat, j: nat)
    ensures Pow(x, i + j) == Pow(x, i) * Pow(x, j)
    decreases i
  {
    if i > 0 {
      PowAdd(x, i - 1, j);
      assert Pow(x, i + j) == x * Pow(x, (i - 1) + j);
      assert x * (Pow(x, i - 1) * Pow(x, j)) == (x * Pow(x, i - 1)) * Pow(x, j);
    }
  }

  /** The sum over the first `n` samples of `x_k ^ e`, in the order of the
      accumulation loop. */
  function PowerSum(xs: seq<real>, e: nat, n: nat): real
    requires n <= |xs|
  {
    if n == 0 then 0.0 else PowerSum(xs, e, n - 1) + Pow(xs[n - 1], e)
  }

  /** The sum over the first `n` samples of `x_k ^ e * y_k`. */
  function MomentSum(xs: seq<real>, ys: seq<real>, e: nat, n: nat): real
    requires n <= |xs| && n <= |ys|
  {
    if n == 0 then 0.0 else MomentSum(xs, ys, e, n - 1) + Pow(xs[n - 1], e) * ys[n - 1]
  }

  /** The `(order+1) x (order+1)` normal matrix, entry (i, j) the sum of
      `x ^ (i + j)`. */
  function NormalMatrixOf(xs: seq<real>, order: nat): seq<seq<real>> {
    seq(order + 1, i requires 0 <= i => seq(order + 1, j requires 0 <= j => PowerSum(xs, i + j, |xs|)))
  }

  /** The right-hand side, entry j the sum of `x ^ j * y`. */
  function RhsOf(xs: seq<real>, ys: seq<real>, order: nat): seq<real>
    requires |xs| == |ys|
  {
    seq(order + 1, j requires 0 <= j => MomentSum(xs, ys, j, |xs|))
  }

  /** The entries of the Gram matrix `V^T V` of the Vandermonde matrix
      `V[k][i] = x_k ^ i`: the inner product of columns i and j. */
  function GramSum(xs: seq<real>, i: nat, j: nat, n: nat): real
    requires n <= |xs|
  {
    if n == 0 then 0.0 else GramSum(xs, i, j, n - 1) + Pow(xs[n - 1], i) * Pow(xs[n - 1], j)
  }

  /** The normal matrix is the Gram matrix of the Vandermonde matrix: the
      system `fit_poly` solves is that of the least-squares problem
      `V c = y`, whose right-hand side `V^T y` is `MomentSum`. */
  lemma {:induction false} NormalIsGram(xs: seq<real>, i: nat, j: nat, n: nat)
    requires n <= |xs|
    ensures PowerSum(xs, i + j, n) == GramSum(xs, i, j, n)
    decreases n
  {
    if n > 0 {
      NormalIsGram(xs, i, j, n - 1);
      PowAdd(xs[n - 1], i, j);
    }
  }

  /** The matrix-building loop of `fit_poly`. */
  method NormalMatrix(xs: seq<real>, order: nat) returns (m: seq<seq<real>>)
    ensures |m| == order + 1
    ensures forall i :: 0 <= i < |m| ==> |m[i]| == order + 1
    ensures forall i, j :: 0 <= i <= order && 0 <= j <= order ==> m[i][j] == PowerSum(xs, i + j, |xs|)
    ensures forall i, j :: 0 <= i <= order && 0 <= j <= order ==> m[i][j] == m[j][i]
    ensures forall i, j, i', j' :: 0 <= i <= order && 0 <= j <= order && 0 <= i' <= order && 0 <= j' <= order && i + j == i' + j' ==>
      m[i][j] == m[i'][j']
    ensures m == NormalMatrixOf(xs, order)
  {
    m := [];
    var it := 0;
    while it < order + 1
      invariant it <= order + 1 && |m| == it
      invariant forall i :: 0 <= i < it ==> |m[i]| == order + 1
      invariant forall i, j :: 0 <= i < it && 0 <= j <= order ==> m[i][j] == PowerSum(xs, i + j, |xs|)
    {
      var row: seq<real> := [];
      var jt := 0;
      while jt < order + 1
        invariant jt <= order + 1 && |row| == jt
        invariant forall j :: 0 <= j < jt ==> row[j] == PowerSum(xs, it + j, |xs|)
      {
        var val := 0.0;
        var kt := 0;
        while kt < |xs|
          invariant kt <= |xs| && val == PowerSum(xs, it + jt, kt)
        {
          val := val + Pow(xs[kt], it + jt);
          kt := kt + 1;
        }
        row := row + [val];
        jt := jt + 1;
      }
      m := m + [row];
      it := it + 1;
    }
    var spec := NormalMatrixOf(xs, order);
    forall i | 0 <= i <= order
      ensures m[i] == spec[i]
    {
      assert forall j :: 0 <= j <= order ==> m[i][j] == spec[i][j];
    }
  }

  /** The right-hand-side loop of `fit_poly`. */
  method Rhs(xs: seq<real>, ys: seq<real>, order: nat) returns (r: seq<real>)
    requires |xs| == |ys|
    ensures |r| == order + 1
    ensures forall j :: 0 <= j <= order ==> r[j] == MomentSum(xs, ys, j, |ys|)
    ensures r == RhsOf(xs, ys, order)
  {
    r := [];
    var jt := 0;
    while jt < order + 1
      invariant jt <= order + 1 && |r| == jt
      invariant forall j :: 0 <= j < jt ==> r[j] == MomentSum(xs, ys, j, |ys|)
    {
      var val := 0.0;
      var kt := 0;
      while kt < |ys|
        invariant kt <= |ys| && val == MomentSum(xs, ys, jt, kt)
      {
        val := val + Pow(xs[kt], jt) * ys[kt];
        kt := kt + 1;
      }
      r := r + [val];
      jt := jt + 1;
    }
  }

  /** `std::reverse`. */
  function Reverse(s: seq<real>): (r: seq<real>)
    ensures |r| == |s|
    ensures forall i :: 0 <= i < |s| ==> r[i] == s[|s| - 1 - i]
  {
    if |s| == 0 then [] else Reverse(s[1..]) + [s[0]]
  }

  lemma ReverseInvolution(s: seq<real>)
    ensures Reverse(Reverse(s)) == s
  {
  }

  /** A polynomial from its coefficients, lowest degree first (the order of
      the unknowns of the normal equations). */
  function EvalAscending(c: seq<real>, x: real): real {
    if |c| == 0 then 0.0 else c[0] + x * EvalAscending(c[1..], x)
  }

  /** A polynomial from its coefficients, highest degree first, by Horner's
      rule (the convention of `numpy.poly1d`). */
  function EvalDescending(c: seq<real>, x: real): real {
    if |c| == 0 then 0.0 else EvalDescending(c[..|c| - 1], x) * x + c[|c| - 1]
  }

  /** Reversing the solution turns the coefficients of the normal equations
      into `numpy.poly1d` order without changing the polynomial. */
  lemma {:induction false} ReverseIsDescending(c: seq<real>, x: real)
    ensures EvalDescending(Reverse(c), x) == EvalAscending(c, x)
    decreases |c|
  {
    if |c| > 0 {
      var d := Reverse(c);
      assert d[..|d| - 1] == Reverse(c[1..]);
      ReverseIsDescending(c[1..], x);
    }
  }

  /** `fit_poly` as a whole. */
  function FitPolyOf(xs: seq<real>, ys: seq<real>, order: nat, solve: Solver): Result<seq<real>> {
    if |xs| != |ys| then Err(RuntimeError)
    else match solve(NormalMatrixOf(xs, order), RhsOf(xs, ys, order))
      case Solved(x) => Ok(Reverse(x))
      case Failed(status) => Err(SolverFailure(status))
  }

  /** `fit_poly`: a size mismatch throws `runtime_error` before anything is
      built; otherwise the solver's answer to the normal equations is
      returned reversed. */
  method FitPoly(xs: seq<real>, ys: seq<real>, order: nat, solve: Solver) returns (r: Result<seq<real>>)
    ensures |xs| != |ys| <==> r == Err(RuntimeError)
    ensures |xs| == |ys| ==> match solve(NormalMatrixOf(xs, order), RhsOf(xs, ys, order))
      case Solved(x) => r.Ok? && |r.value| == |x| && forall i :: 0 <= i < |x| ==> r.value[i] == x[|x| - 1 - i]
      case Failed(status) => r == Err(SolverFailure(status))
    ensures r == FitPolyOf(xs, ys, order, solve)
  {
    if |xs| != |ys| {
      return Err(RuntimeError);
    }
    var matrix := NormalMatrix(xs, order);
    var rhs := Rhs(xs, ys, order);
    match solve(matrix, rhs)
    case Solved(lhs) =>
      return Ok(Reverse(lhs));
    case Failed(status) =>
      return Err(SolverFailure(status));
  }

  /** The first index at or after `from` whose sample reaches `bound`, or the
      end of the samples. */
  function FirstAtLeast(xs: seq<real>, from: nat, bound: real): (stop: nat)
    requires from <= |xs|
    ensures from <= stop <= |xs|
    ensures forall k :: from <= k < stop ==> xs[k] < bound
    ensures stop < |xs| ==> xs[stop] >= bound
    decreases |xs| - from
  {
    if from == |xs| || xs[from] >= bound then from else FirstAtLeast(xs, from + 1, bound)
  }

  /** The end of slice `it` of `fit_polys`: scanning from the end of the
      previous slice for the first sample `>= it + 1`. */
  function Stop(xs: seq<real>, it: nat): (s: nat)
    ensures Start(xs, it) <= s <= |xs|
    decreases it, 1
  {
    FirstAtLeast(xs, Start(xs, it), (it + 1) as real)
  }

  /** The start of slice `it`: where the previous slice stopped. */
  function Start(xs: seq<real>, it: nat): (s: nat)
    ensures s <= |xs|
    decreases it, 0
  {
    if it == 0 then 0 else Stop(xs, it - 1)
  }

  /** The scan of `fit_polys` for one slice. */
  method ScanStop(xs: seq<real>, start: nat, bound: real) returns (stop: nat)
    requires start <= |xs|
    ensures stop == FirstAtLeast(xs, start, bound)
  {
    stop := start;
    while stop < |xs|
      invariant start <= stop <= |xs|
      invariant FirstAtLeast(xs, stop, bound) == FirstAtLeast(xs, start, bound)
    {
      if xs[stop] >= bound {
        break;
      }
      stop := stop + 1;
    }
  }

  /** The first `n` slices, concatenated. */
  function Joined(xs: seq<real>, n: nat): seq<real> {
    if n == 0 then [] else Joined(xs, n - 1) + xs[Start(xs, n - 1)..Stop(xs, n - 1)]
  }

  /** The slices are consecutive and do not overlap: together the first `n`
      are exactly the samples before the start of slice `n`. */
  lemma {:induction false} SlicesPartition(xs: seq<real>, n: nat)
    ensures Joined(xs, n) == xs[..Start(xs, n)]
  {
    if n > 0 {
      SlicesPartition(xs, n - 1);
      assert xs[..Start(xs, n - 1)] + xs[Start(xs, n - 1)..Stop(xs, n - 1)] == xs[..Stop(xs, n - 1)];
    }
  }

  predicate Sorted(xs: seq<real>) {
    forall k, l :: 0 <= k <= l < |xs| ==> xs[k] <= xs[l]
  }

  /** On sorted samples, slice `it` ends after exactly the samples below
      `it + 1`. */
  lemma {:induction false} SortedStop(xs: seq<real>, it: nat)
    requires Sorted(xs)
    ensures forall k :: 0 <= k < |xs| ==> (k < Stop(xs, it) <==> xs[k] < (it + 1) as real)
    decreases it
  {
    if it > 0 {
      SortedStop(xs, it - 1);
    }
    var s := Stop(xs, it);
    forall k | 0 <= k < |xs|
      ensures k < s <==> xs[k] < (it + 1) as real
    {
      if k >= s {
        assert xs[s] <= xs[k];
      }
    }
  }

  /** On sorted, non-negative samples, slice `it` holds exactly the samples
      in `[it, it + 1)`. This is what makes the batch fit agree with fitting
      each unit interval on its own. */
  lemma SortedSliceIsInterval(xs: seq<real>, it: nat)
    requires Sorted(xs)
    requires forall k :: 0 <= k < |xs| ==> xs[k] >= 0.0
    ensures forall k :: 0 <= k < |xs| ==>
      (Start(xs, it) <= k < Stop(xs, it) <==> it as real <= xs[k] < (it + 1) as real)
  {
    SortedStop(xs, it);
    if it > 0 {
      SortedStop(xs, it - 1);
    }
    forall k | 0 <= k < |xs|
      ensures Start(xs, it) <= k < Stop(xs, it) <==> it as real <= xs[k] < (it + 1) as real
    {
      if it > 0 {
        assert k < Start(xs, it) <==> xs[k] < it as real;
      }
    }
  }

  function Min(xs: seq<real>): (m: real)
    requires |xs| > 0
    ensures m in xs
    ensures forall k :: 0 <= k < |xs| ==> m <= xs[k]
  {
    if |xs| == 1 then xs[0] else var t := Min(xs[1..]); if xs[0] <= t then xs[0] else t
  }

  function Max(xs: seq<real>): (m: real)
    requires |xs| > 0
    ensures m in xs
    ensures forall k :: 0 <= k < |xs| ==> xs[k] <= m
  {
    if |xs| == 1 then xs[0] else var t := Max(xs[1..]); if xs[0] >= t then xs[0] else t
  }

  /** `std::ceil` on a real. */
  function Ceil(r: real): int {
    -((-r).Floor)
  }

  /** `xmin`: the floor of the smallest sample, as a `size_t`. */
  function Xmin(xs: seq<real>): nat
    requires |xs| > 0 && Min(xs) >= 0.0
  {
    Min(xs).Floor
  }

  /** `xmax`: the ceiling of the largest sample, as a `size_t`. */
  function Xmax(xs: seq<real>): (n: nat)
    requires |xs| > 0 && Min(xs) >= 0.0
    ensures Xmin(xs) <= n
    ensures forall k :: 0 <= k < |xs| ==> xs[k] <= n as real
  {
    Ceil(Max(xs))
  }

  /** `fit_polys` allocates `xmax - xmin` rows but writes rows `0 .. xmax-1`:
      the writes stay inside the result exactly when the floor of the
      smallest sample is 0. */
  predicate RowInResult(xs: seq<real>, it: nat)
    requires |xs| > 0 && Min(xs) >= 0.0
  {
    it < Xmax(xs) - Xmin(xs)
  }

  lemma RowWritesInRange(xs: seq<real>)
    requires |xs| > 0 && Min(xs) >= 0.0
    ensures (forall it: nat :: it < Xmax(xs) ==> RowInResult(xs, it)) <==> Xmin(xs) == 0
  {
    if Xmin(xs) > 0 {
      var it: nat := Xmax(xs) - 1;
      assert !RowInResult(xs, it);
    }
  }

  /** The fit of slice `it`. */
  function SliceFit(xs: seq<real>, ys: seq<real>, order: nat, solve: Solver, it: nat): Result<seq<real>>
    requires |xs| == |ys|
  {
    FitPolyOf(xs[Start(xs, it)..Stop(xs, it)], ys[Start(xs, it)..Stop(xs, it)], order, solve)
  }

  /** One pass of the loop of `fit_polys`: scan for the end of slice `it`
      and fit it. */
  method FitSlice(xs: seq<real>, ys: seq<real>, order: nat, solve: Solver, it: nat, start: nat)
    returns (stop: nat, sub: Result<seq<real>>)
    requires |xs| == |ys| && start == Start(xs, it)
    requires forall m, rhs :: solve(m, rhs).Solved? ==> |solve(m, rhs).x| == |rhs|
    ensures stop == Stop(xs, it) && stop == Start(xs, it + 1)
    ensures sub == SliceFit(xs, ys, order, solve, it)
    ensures sub.Ok? ==> |sub.value| == order + 1
  {
    stop := ScanStop(xs, start, (it + 1) as real);
    sub := FitPoly(xs[start..stop], ys[start..stop], order, solve);
    if sub.Ok? {
      var x := solve(NormalMatrixOf(xs[start..stop], order), RhsOf(xs[start..stop], ys[start..stop], order));
      assert x.Solved? && sub.value == Reverse(x.x);
    }
  }

  /** The loop of `fit_polys`: `ninterval` zero rows, of which rows
      `0 .. xmax-1` are overwritten with the fits of the slices. */
  method FitRows(xs: seq<real>, ys: seq<real>, order: nat, solve: Solver, xmax: nat, ninterval: nat)
    returns (r: Result<seq<seq<real>>>)
    requires |xs| == |ys| && xmax <= ninterval
    requires forall m, rhs :: solve(m, rhs).Solved? ==> |solve(m, rhs).x| == |rhs|
    ensures r.Ok? <==> forall it: nat :: it < xmax ==> SliceFit(xs, ys, order, solve, it).Ok?
    ensures r.Ok? ==> |r.value| == ninterval
    ensures r.Ok? ==> forall it: nat :: it < xmax ==>
      |r.value[it]| == order + 1 && SliceFit(xs, ys, order, solve, it) == Ok(r.value[it])
    ensures r.Ok? ==> forall it: nat :: xmax <= it < ninterval ==> r.value[it] == seq(order + 1, _ => 0.0)
    ensures r.Err? ==> exists it: nat :: it < xmax && SliceFit(xs, ys, order, solve, it) == Err(r.error)
  {
    var lhs := seq(ninterval, _ => seq(order + 1, _ => 0.0));
    var start := 0;
    var it: nat := 0;
    while it < xmax
      invariant it <= xmax && start == Start(xs, it)
      invariant |lhs| == ninterval
      invariant forall t: nat :: t < it ==> SliceFit(xs, ys, order, solve, t).Ok?
      invariant forall t: nat :: t < it ==> SliceFit(xs, ys, order, solve, t) == Ok(lhs[t]) && |lhs[t]| == order + 1
      invariant forall t: nat :: it <= t < ninterval ==> lhs[t] == seq(order + 1, _ => 0.0)
    {
      var stop, sub := FitSlice(xs, ys, order, solve, it, start);
      if sub.Err? {
        assert SliceFit(xs, ys, order, solve, it) == Err(sub.error);
        return Err(sub.error);
      }
      lhs := lhs[it := sub.value];
      start := stop;
      it := it + 1;
    }
    return Ok(lhs);
  }

  /** `fit_polys`: one row of `order + 1` coefficients per unit interval,
      row `it` the fit of slice `it`. The first failing fit's error is
      propagated. The program needs at least one sample and non-negative
      samples (they are converted to `size_t`), and samples whose smallest
      floor is 0 so that the row writes stay inside the result; and it relies
      on the solver answering with one coefficient per unknown. */
  method FitPolys(xs: seq<real>, ys: seq<real>, order: nat, solve: Solver) returns (r: Result<seq<seq<real>>>)
    requires |xs| > 0 && |xs| == |ys|
    requires forall k :: 0 <= k < |xs| ==> xs[k] >= 0.0
    requires Xmin(xs) == 0
    requires forall m, rhs :: solve(m, rhs).Solved? ==> |solve(m, rhs).x| == |rhs|
    ensures r.Ok? <==> forall it: nat :: it < Xmax(xs) ==> SliceFit(xs, ys, order, solve, it).Ok?
    ensures r.Ok? ==> |r.value| == Xmax(xs) - Xmin(xs)
    ensures r.Ok? ==> forall it: nat :: it < |r.value| ==>
      |r.value[it]| == order + 1 && SliceFit(xs, ys, order, solve, it) == Ok(r.value[it])
    ensures r.Err? ==> exists it: nat :: it < Xmax(xs) && SliceFit(xs, ys, order, solve, it) == Err(r.error)
  {
    var xmin := Xmin(xs);
    var xmax := Xmax(xs);
    var ninterval := xmax - xmin;
    r := FitRows(xs, ys, order, solve, xmax, ninterval);
  }
}
