/**
 * Row slices of a plane: slice `job` of `n` covers the rows
 * `[h * job / n, h * (job + 1) / n)`, and a plane of height `h` is cut into
 * `min(h, threads)` slices.
 */
module Slices {
  import opened FixedPoint

  /** `start = (h * job) / nb_jobs` */
  function SliceStart(h: int, job: int, n: int): (s: int)
    requires 0 <= h && 0 < n && 0 <= job <= n
    ensures 0 <= s <= h
    ensures s * n <= h * job < (s + 1) * n
  {
    DivBetween(h, job, n);
    h * job / n
  }

  /** `end = (h * (job + 1)) / nb_jobs` */
  function SliceEnd(h: int, job: int, n: int): (e: int)
    requires 0 <= h && 0 < n && 0 <= job < n
    ensures 0 <= e <= h
    ensures e == SliceStart(h, job + 1, n)
  {
    DivBetween(h, job + 1, n);
    h * (job + 1) / n
  }

  /** `nb_jobs = FFMIN(h, threads)` */
  function NbJobs(h: int, threads: int): (n: int)
    requires 0 < h && 0 < threads
    ensures 1 <= n <= h && n <= threads
    ensures n == h || n == threads
  {
    if h < threads then h else threads
  }

  lemma DivBetween(h: int, job: int, n: int)
    requires 0 <= h && 0 < n && 0 <= job <= n
    ensures 0 <= h * job / n <= h
    ensures (h * job / n) * n <= h * job < (h * job / n + 1) * n
  {
    var q := h * job / n;
    assert n * q + (h * job) % n == h * job;
    MulNonnegative(h, job);
    MulLe(job, n, h);
    if q > h {
      MulLe(h + 1, q, n);
    }
    if q < 0 {
      MulLe(q, -1, n);
    }
  }

  /**
   * The `int` products `h * job` and `h * (job + 1)` do not overflow: with
   * at most `h` jobs they are at most `h * h`, which fits when the plane's
   * `w * w + h * h` does.
   */
  lemma SliceProductsFit(h: int, job: int, n: int)
    requires 0 < h && h * h <= INT_MAX && 0 < n <= h && 0 <= job < n
    ensures 0 <= h * job < h * (job + 1) <= INT_MAX
  {
    MulLe(job + 1, h, h);
    MulNonnegative(h, job);
    assert h * (job + 1) == h * job + h;
  }

  /** Slices never run backwards: a later slice starts no earlier. */
  lemma StartMonotone(h: int, j1: int, j2: int, n: int)
    requires 0 <= h && 0 < n && 0 <= j1 <= j2 <= n
    ensures SliceStart(h, j1, n) <= SliceStart(h, j2, n)
  {
    var s1, s2 := SliceStart(h, j1, n), SliceStart(h, j2, n);
    MulLe(j1, j2, h);
    if s1 > s2 {
      MulLe(s2 + 1, s1, n);
    }
  }

  /** The first slice starts at row 0 and the last ends at row `h`. */
  lemma SlicesSpanPlane(h: int, n: int)
    requires 0 <= h && 0 < n
    ensures SliceStart(h, 0, n) == 0
    ensures SliceEnd(h, n - 1, n) == h
  {
    var e := SliceStart(h, n, n);
    if e < h {
      MulLe(e + 1, h, n);
    }
  }

  /** Each slice is a (possibly empty) row range inside the plane, and the next one starts where it ends. */
  lemma SliceBounds(h: int, job: int, n: int)
    requires 0 <= h && 0 < n && 0 <= job < n
    ensures 0 <= SliceStart(h, job, n) <= SliceEnd(h, job, n) <= h
    ensures job + 1 < n ==> SliceEnd(h, job, n) == SliceStart(h, job + 1, n)
  {
    StartMonotone(h, job, job + 1, n);
  }

  /** The slices are balanced: each has `h / n` or `h / n + 1` rows. */
  lemma SliceSizesBalanced(h: int, job: int, n: int)
    requires 0 <= h && 0 < n && 0 <= job < n
    ensures h / n <= SliceEnd(h, job, n) - SliceStart(h, job, n) <= h / n + 1
  {
    var hj := h * job;
    MulNonnegative(h, job);
    assert h * (job + 1) == hj + h;
    DivOfSumBetween(hj, h, n);
  }

  /** `(a + h) / n - a / n` is `h / n` or `h / n + 1`. */
  lemma DivOfSumBetween(a: int, h: int, n: int)
    requires 0 <= a && 0 <= h && 0 < n
    ensures h / n <= (a + h) / n - a / n <= h / n + 1
  {
    var s, e, q := a / n, (a + h) / n, h / n;
    assert a == n * s + a % n;
    assert a + h == n * e + (a + h) % n;
    assert h == n * q + h % n;
    // so n * (e - s - q) == (a % n) + (h % n) - (a + h) % n, strictly between -n and 2 * n
    assert n * (e - s - q) == n * e - n * s - n * q;
    SmallMultiple(e - s - q, n);
  }

  /** An integer whose multiple by `n` lies strictly between `-n` and `2 * n` is 0 or 1. */
  lemma SmallMultiple(x: int, n: int)
    requires 0 < n && -n < n * x < 2 * n
    ensures 0 <= x <= 1
  {
    if x < 0 {
      MulLe(x, -1, n);
    }
    if x > 1 {
      MulLe(2, x, n);
    }
  }

  /** Slices of different jobs share no row. */
  lemma SlicesDisjoint(h: int, j1: int, j2: int, n: int, row: int)
    requires 0 <= h && 0 < n && 0 <= j1 < n && 0 <= j2 < n && j1 != j2
    requires SliceStart(h, j1, n) <= row < SliceEnd(h, j1, n)
    ensures !(SliceStart(h, j2, n) <= row < SliceEnd(h, j2, n))
  {
    if j1 < j2 {
      StartMonotone(h, j1 + 1, j2, n);
    } else {
      StartMonotone(h, j2 + 1, j1, n);
    }
  }

  /** Every row of the plane lies in some slice. */
  lemma SliceOfRow(h: int, n: int, row: int) returns (job: int)
    requires 0 < n && 0 <= row < h
    ensures 0 <= job < n
    ensures SliceStart(h, job, n) <= row < SliceEnd(h, job, n)
  {
    SlicesSpanPlane(h, n);
    job := 0;
    while SliceEnd(h, job, n) <= row
      invariant 0 <= job < n
      invariant SliceStart(h, job, n) <= row
      decreases n - job
    {
      job := job + 1;
    }
  }

  /** With at most `h` slices, as `FFMIN(h, threads)` gives, no slice is empty. */
  lemma SlicesNonEmpty(h: int, job: int, n: int)
    requires 0 < n <= h && 0 <= job < n
    ensures SliceStart(h, job, n) < SliceEnd(h, job, n)
  {
    var s, e := SliceStart(h, job, n), SliceEnd(h, job, n);
    assert h * (job + 1) == h * job + h;
    if e <= s {
      // e * n <= s * n <= h * job, yet h * (job + 1) < (e + 1) * n
      MulLe(e, s, n);
    }
  }
}
