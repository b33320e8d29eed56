/** Rasterised regions, as the two MultiRegionFigure classes compute them with
    numpy: a grid of sample points, one boolean mask per constraint, the masks
    AND-ed together, pixel counts, containment and the line thinning of the gui
    figure. A mask is indexed [row][column]; row r samples fn = d[r] and column
    c samples fp = d[c], as `np.meshgrid(d, d)` lays them out. */
module Raster {
  import opened Wrappers
  import opened DifferentialPrivacy

  type Mask = seq<seq<bool>>

  // ----- np.linspace -----

  /** np.linspace(start, stop, num=n): n evenly spaced samples from start to
      stop, both included; a negative count is a ValueError. */
  function Linspace(start: real, stop: real, n: int): (r: Result<seq<real>>)
    ensures r.Err? <==> n < 0
    ensures r.Ok? ==> |r.value| == n
    ensures r.Ok? && n >= 1 ==> r.value[0] == start
    ensures r.Ok? && n >= 2 ==> r.value[n - 1] == stop
  {
    if n < 0 then Err(ValueError)
    else if n <= 1 then Ok(seq(n, i => start))
    else
      var step := (stop - start) / ((n - 1) as real);
      Ok(seq(n, i requires 0 <= i < n => if i == n - 1 then stop else start + (i as real) * step))
  }

  /** The spacing of m > 0 intervals between start <= stop is not negative
      and m of them span the range. */
  lemma StepSpan(start: real, stop: real, m: real, step: real)
    requires start <= stop && 0.0 < m && step == (stop - start) / m
    ensures 0.0 <= step && step * m == stop - start
  {
  }

  /** x <= m steps from start stay between start and stop. */
  lemma StepsBetween(start: real, stop: real, m: real, step: real, x: real)
    requires 0.0 <= step && step * m == stop - start && 0.0 <= x <= m
    ensures start <= start + x * step <= stop
  {
    ScaleMonotone(0.0, x, step);
    ScaleMonotone(x, m, step);
  }

  /** Sample i of n >= 2 samples is start + i * step, below stop, where step
      is the non-negative spacing; the last sample is stop itself. */
  lemma LinspaceSample(start: real, stop: real, n: int, i: int, step: real)
    requires start <= stop && n >= 2 && 0 <= i < n
    requires step == (stop - start) / ((n - 1) as real)
    ensures 0.0 <= step
    ensures Linspace(start, stop, n).value[i] == (if i == n - 1 then stop else start + (i as real) * step)
    ensures start <= Linspace(start, stop, n).value[i] <= stop
  {
    var m := (n - 1) as real;
    StepSpan(start, stop, m, step);
    StepsBetween(start, stop, m, step, i as real);
  }

  /** Multiplying by a non-negative factor keeps the order. */
  lemma ScaleMonotone(a: real, b: real, k: real)
    requires 0.0 <= a <= b && 0.0 <= k
    ensures a * k <= b * k
  {
    assert (b - a) * k >= 0.0;
  }

  /** Fewer non-negative steps from the same start end no further. */
  lemma StepsOrdered(start: real, step: real, x: real, y: real, a: real, b: real)
    requires 0.0 <= step && 0.0 <= x <= y
    requires a == start + x * step && b == start + y * step
    ensures a <= b
  {
    ScaleMonotone(x, y, step);
  }

  /** A later sample is never smaller. */
  lemma LinspacePair(start: real, stop: real, n: int, i: int, j: int, step: real)
    requires start <= stop && n >= 2 && 0 <= i <= j < n
    requires step == (stop - start) / ((n - 1) as real)
    ensures Linspace(start, stop, n).value[i] <= Linspace(start, stop, n).value[j]
  {
    LinspaceSample(start, stop, n, i, step);
    LinspaceSample(start, stop, n, j, step);
    var a, b := Linspace(start, stop, n).value[i], Linspace(start, stop, n).value[j];
    if j < n - 1 {
      StepsOrdered(start, step, i as real, j as real, a, b);
    }
  }

  /** Every sample lies between the endpoints, in increasing order. */
  lemma LinspaceOrdered(start: real, stop: real, n: int)
    requires start <= stop && n >= 0
    ensures forall i :: 0 <= i < n ==> start <= Linspace(start, stop, n).value[i] <= stop
    ensures forall i, j :: 0 <= i <= j < n ==> Linspace(start, stop, n).value[i] <= Linspace(start, stop, n).value[j]
  {
    var d := Linspace(start, stop, n).value;
    if n >= 2 {
      var step := (stop - start) / ((n - 1) as real);
      forall i | 0 <= i < n
        ensures start <= d[i] <= stop
      {
        LinspaceSample(start, stop, n, i, step);
      }
      forall i, j | 0 <= i <= j < n
        ensures d[i] <= d[j]
      {
        LinspacePair(start, stop, n, i, j, step);
      }
    }
  }

  // ----- masks -----

  /** m is an n-by-n mask. */
  predicate IsGrid(m: Mask, n: nat)
  {
    |m| == n && forall r :: 0 <= r < n ==> |m[r]| == n
  }

  /** `constraint(x, y)` on the meshgrid of d: the cell in row r and column c
      holds when the constraint holds at fp = d[c], fn = d[r]. */
  function ConstraintMask(c: Constraint, d: seq<real>): (m: Mask)
    ensures IsGrid(m, |d|)
    ensures forall r, col :: 0 <= r < |d| && 0 <= col < |d| ==> (m[r][col] <==> Eval(c, d[col], d[r]))
  {
    seq(|d|, r requires 0 <= r < |d| => seq(|d|, col requires 0 <= col < |d| => Eval(c, d[col], d[r])))
  }

  /** The masks of all constraints of a region, in order. */
  function ConstraintMasks(region: Region, d: seq<real>): (ms: seq<Mask>)
    ensures |ms| == |region|
    ensures forall i :: 0 <= i < |region| ==> ms[i] == ConstraintMask(region[i], d)
  {
    seq(|region|, i requires 0 <= i < |region| => ConstraintMask(region[i], d))
  }

  /** Cellwise `&`. */
  function And(a: Mask, b: Mask, n: nat): (m: Mask)
    requires IsGrid(a, n) && IsGrid(b, n)
    ensures IsGrid(m, n)
  {
    seq(n, r requires 0 <= r < n => seq(n, c requires 0 <= c < n => a[r][c] && b[r][c]))
  }

  /** `reduce(lambda c1, c2: c1 & c2, masks)`: a left fold of `&`. */
  function AndAll(ms: seq<Mask>, n: nat): (m: Mask)
    requires |ms| >= 1 && forall i :: 0 <= i < |ms| ==> IsGrid(ms[i], n)
    ensures IsGrid(m, n)
  {
    if |ms| == 1 then ms[0] else And(AndAll(ms[..|ms| - 1], n), ms[|ms| - 1], n)
  }

  /** A cell of the fold is set exactly when it is set in every mask. */
  lemma {:induction false} AndAllCell(ms: seq<Mask>, n: nat, r: nat, c: nat)
    requires |ms| >= 1 && forall i :: 0 <= i < |ms| ==> IsGrid(ms[i], n)
    requires r < n && c < n
    ensures AndAll(ms, n)[r][c] <==> forall i :: 0 <= i < |ms| ==> ms[i][r][c]
  {
    if |ms| > 1 {
      var init := ms[..|ms| - 1];
      AndAllCell(init, n, r, c);
      assert forall i :: 0 <= i < |init| ==> init[i] == ms[i];
    }
  }

  /** The integer mask of a region: the AND of the masks of its constraints.
      `reduce` of an empty list with no initial value raises a TypeError. */
  function FilledMask(region: Region, d: seq<real>): (r: Result<Mask>)
    ensures r.Err? <==> |region| == 0
    ensures r.Err? ==> r.error == TypeError
    ensures r.Ok? ==> IsGrid(r.value, |d|)
  {
    if |region| == 0 then Err(TypeError) else Ok(AndAll(ConstraintMasks(region, d), |d|))
  }

  /** A cell of the region's mask is set exactly when the sample point of the
      cell lies in the region. */
  lemma FilledMaskHolds(region: Region, d: seq<real>, r: nat, c: nat)
    requires |region| > 0 && r < |d| && c < |d|
    ensures FilledMask(region, d).value[r][c] <==> Holds(region, d[c], d[r])
  {
    var ms := ConstraintMasks(region, d);
    AndAllCell(ms, |d|, r, c);
    assert forall i :: 0 <= i < |region| ==> (ms[i][r][c] <==> Eval(region[i], d[c], d[r]));
  }

  // ----- counting -----

  function B2I(b: bool): int
  {
    if b then 1 else 0
  }

  /** Number of set cells of a row. */
  function RowCount(row: seq<bool>): nat
  {
    if |row| == 0 then 0 else RowCount(row[..|row| - 1]) + B2I(row[|row| - 1])
  }

  /** `mask.sum()`: number of set cells. */
  function Count(m: Mask): nat
  {
    if |m| == 0 then 0 else Count(m[..|m| - 1]) + RowCount(m[|m| - 1])
  }

  /** The sum of the cellwise differences of two rows; meant for rows of
      equal length. */
  function RowDiff(a: seq<bool>, b: seq<bool>): int
  {
    if |a| == 0 || |b| == 0 then 0
    else RowDiff(a[..|a| - 1], b[..|b| - 1]) + (B2I(a[|a| - 1]) - B2I(b[|b| - 1]))
  }

  /** a and b have the same number of rows, and rows of equal lengths. */
  predicate SameShape(a: Mask, b: Mask)
  {
    |a| == |b| && forall r :: 0 <= r < |a| ==> |a[r]| == |b[r]|
  }

  /** `(a - b).sum()` on the integer masks: the sum of the cellwise
      differences; meant for masks of the same shape. */
  function DiffSum(a: Mask, b: Mask): int
  {
    if |a| == 0 || |b| == 0 then 0
    else DiffSum(a[..|a| - 1], b[..|b| - 1]) + RowDiff(a[|a| - 1], b[|b| - 1])
  }

  lemma {:induction false} RowDiffCount(a: seq<bool>, b: seq<bool>)
    requires |a| == |b|
    ensures RowDiff(a, b) == RowCount(a) - RowCount(b)
  {
    if |a| > 0 {
      RowDiffCount(a[..|a| - 1], b[..|b| - 1]);
    }
  }

  /** The summed difference is the difference of the pixel counts. */
  lemma {:induction false} DiffSumCount(a: Mask, b: Mask)
    requires SameShape(a, b)
    ensures DiffSum(a, b) == Count(a) - Count(b)
  {
    if |a| > 0 {
      DiffSumCount(a[..|a| - 1], b[..|b| - 1]);
      RowDiffCount(a[|a| - 1], b[|b| - 1]);
    }
  }

  // ----- containment -----

  /** `np.all(a - b >= 0)`: every cell set in b is set in a; meant for masks
      of the same shape. */
  predicate Covers(a: Mask, b: Mask)
  {
    forall r, c :: 0 <= r < |a| && r < |b| && 0 <= c < |a[r]| && c < |b[r]| ==> (b[r][c] ==> a[r][c])
  }

  predicate RowCovers(a: seq<bool>, b: seq<bool>)
    requires |a| == |b|
  {
    forall c :: 0 <= c < |a| ==> (b[c] ==> a[c])
  }

  lemma {:induction false} RowCoversCount(a: seq<bool>, b: seq<bool>)
    requires |a| == |b| && RowCovers(a, b)
    ensures RowCount(b) <= RowCount(a)
    ensures (exists c :: 0 <= c < |a| && a[c] && !b[c]) ==> RowCount(b) < RowCount(a)
  {
    if |a| > 0 {
      var n := |a| - 1;
      assert RowCovers(a[..n], b[..n]) by {
        forall c | 0 <= c < n ensures b[..n][c] ==> a[..n][c] {
          assert a[..n][c] == a[c] && b[..n][c] == b[c];
        }
      }
      RowCoversCount(a[..n], b[..n]);
      if exists c :: 0 <= c < |a| && a[c] && !b[c] {
        var c :| 0 <= c < |a| && a[c] && !b[c];
        if c < n {
          assert a[..n][c] && !b[..n][c];
        }
      }
    }
  }

  /** A region that covers another has at least as many pixels, and strictly
      more when it does not coincide with it. */
  lemma {:induction false} CoversCount(a: Mask, b: Mask)
    requires SameShape(a, b) && Covers(a, b)
    ensures Count(b) <= Count(a)
    ensures a != b ==> Count(b) < Count(a)
  {
    if |a| > 0 {
      var n := |a| - 1;
      CoversPrefix(a, b, n);
      CoversCount(a[..n], b[..n]);
      assert RowCovers(a[n], b[n]);
      RowCoversCount(a[n], b[n]);
      if a != b && a[..n] == b[..n] {
        assert a == a[..n] + [a[n]] && b == b[..n] + [b[n]];
        var c := CellWhereRowsDiffer(a[n], b[n]);
        assert a[n][c] && !b[n][c];
      }
    } else {
      assert a == b;
    }
  }

  /** The first n rows of two masks keep their shape and their covering. */
  lemma CoversPrefix(a: Mask, b: Mask, n: nat)
    requires SameShape(a, b) && Covers(a, b) && n <= |a|
    ensures SameShape(a[..n], b[..n]) && Covers(a[..n], b[..n])
  {
    forall r, c | 0 <= r < n && 0 <= c < |a[..n][r]|
      ensures b[..n][r][c] ==> a[..n][r][c]
    {
      assert a[..n][r] == a[r] && b[..n][r] == b[r];
    }
  }

  /** Two different rows of one length differ in some cell. */
  lemma CellWhereRowsDiffer(x: seq<bool>, y: seq<bool>) returns (c: nat)
    requires |x| == |y| && x != y
    ensures c < |x| && x[c] != y[c]
  {
    c :| c < |x| && x[c] != y[c];
  }

  /** Two masks of one shape that cover each other are equal. */
  lemma CoversBothWays(a: Mask, b: Mask)
    requires SameShape(a, b) && Covers(a, b) && Covers(b, a)
    ensures a == b
  {
    forall r | 0 <= r < |a| ensures a[r] == b[r] {
      assert forall c :: 0 <= c < |a[r]| ==> a[r][c] == b[r][c];
    }
  }

  // ----- the gui figure's line thinning -----

  /** `(np.cumsum(row) <= T) * row`: the cells of the row up to and including
      its T-th set cell. */
  function Band(row: seq<bool>, T: int): (b: seq<bool>)
    ensures |b| == |row|
  {
    seq(|row|, c requires 0 <= c < |row| => row[c] && RowCount(row[..c + 1]) <= T)
  }

  /** Column c of a mask, top to bottom. */
  function Column(m: Mask, c: nat): (col: seq<bool>)
    requires forall r :: 0 <= r < |m| ==> c < |m[r]|
    ensures |col| == |m|
  {
    seq(|m|, r requires 0 <= r < |m| => m[r][c])
  }

  /** `bitwise_or` of the row band (cumsum along axis 1) and the column band
      (cumsum along axis 0) of an n-by-n mask. */
  function Thinned(m: Mask, T: int, n: nat): (t: Mask)
    requires IsGrid(m, n)
    ensures IsGrid(t, n)
  {
    seq(n, r requires 0 <= r < n => seq(n, c requires 0 <= c < n =>
      Band(m[r], T)[c] || Band(Column(m, c), T)[r]))
  }

  lemma RowCountAtMostLength(row: seq<bool>)
    ensures RowCount(row) <= |row|
  {
  }

  /** The band of a row keeps exactly min(T, set cells) cells, all of them set
      in the row. */
  lemma {:induction false} BandCount(row: seq<bool>, T: int)
    requires T >= 0
    ensures RowCovers(row, Band(row, T))
    ensures RowCount(Band(row, T)) == if T < RowCount(row) then T else RowCount(row)
  {
    if |row| > 0 {
      var n := |row| - 1;
      BandCount(row[..n], T);
      assert Band(row, T)[..n] == Band(row[..n], T) by {
        forall c | 0 <= c < n ensures Band(row, T)[..n][c] == Band(row[..n], T)[c] {
          assert row[..n][..c + 1] == row[..c + 1];
        }
      }
      assert row[..n + 1] == row;
    }
  }

  /** A band no narrower than the row keeps the whole row. */
  lemma BandWide(row: seq<bool>, T: int)
    requires |row| <= T
    ensures Band(row, T) == row
  {
    forall c | 0 <= c < |row| ensures Band(row, T)[c] == row[c] {
      RowCountAtMostLength(row[..c + 1]);
    }
  }

  /** The thinned region lies inside the filled one and keeps, in every row
      and every column, at least the first T pixels of the filled region
      (all of them when there are fewer). */
  lemma ThinnedKeepsLine(m: Mask, T: int, n: nat)
    requires IsGrid(m, n) && T >= 0
    ensures SameShape(m, Thinned(m, T, n)) && Covers(m, Thinned(m, T, n))
    ensures forall r :: 0 <= r < n ==>
      RowCount(Thinned(m, T, n)[r]) >= (if T < RowCount(m[r]) then T else RowCount(m[r]))
    ensures forall c :: 0 <= c < n ==>
      RowCount(Column(Thinned(m, T, n), c)) >= (if T < RowCount(Column(m, c)) then T else RowCount(Column(m, c)))
  {
    var t := Thinned(m, T, n);
    forall r, c | 0 <= r < n && 0 <= c < n
      ensures t[r][c] ==> m[r][c]
    {
      BandCount(m[r], T);
      BandCount(Column(m, c), T);
    }
    forall r | 0 <= r < n
      ensures RowCount(t[r]) >= (if T < RowCount(m[r]) then T else RowCount(m[r]))
    {
      BandCount(m[r], T);
      RowCoversCount(t[r], Band(m[r], T));
    }
    forall c | 0 <= c < n
      ensures RowCount(Column(t, c)) >= (if T < RowCount(Column(m, c)) then T else RowCount(Column(m, c)))
    {
      BandCount(Column(m, c), T);
      RowCoversCount(Column(t, c), Band(Column(m, c), T));
    }
  }

  /** A line at least as thick as the grid is the whole filled region. */
  lemma ThinnedWide(m: Mask, T: int, n: nat)
    requires IsGrid(m, n) && n <= T
    ensures Thinned(m, T, n) == m
  {
    var t := Thinned(m, T, n);
    forall r | 0 <= r < n ensures t[r] == m[r] {
      BandWide(m[r], T);
    }
  }
}
