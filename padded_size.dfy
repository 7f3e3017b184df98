/** The stride alignment arithmetic of the detection layers: a spatial size
    (height or width) is rounded up to the next multiple of the alignment
    multiple with `(n + m - 1) // m * m`.  Sizes are array dimensions, so they
    are never negative.  The multiple must be positive: with 0 the floor
    division fails, and the source does not guard against it.

    Floor division and multiplication are written out recursively
    (`FloorDiv`, `Times`) and proved equal to Dafny's `/` and `*`, so that
    the facts about them are proved by induction rather than left to the
    solver's nonlinear arithmetic. */
module PaddedSize {

  /** `q * m`, as `q` repeated additions of `m`. */
  function Times(q: nat, m: nat): nat
  {
    if q == 0 then 0 else Times(q - 1, m) + m
  }

  /** `Times` is multiplication. */
  lemma {:induction false} TimesIsMultiplication(q: nat, m: nat)
    ensures Times(q, m) == q * m
  {
    if q > 0 {
      TimesIsMultiplication(q - 1, m);
      assert q * m == (q - 1) * m + m;
    }
  }

  /** More copies of `m` add up to at least one more `m`. */
  lemma {:induction false} TimesIncreasing(q1: nat, q2: nat, m: nat)
    requires q1 < q2
    ensures Times(q1, m) + m <= Times(q2, m)
  {
    if q1 + 1 < q2 {
      TimesIncreasing(q1, q2 - 1, m);
    }
  }

  /** Python's floor division `a // m` for a non-negative `a` and a positive
      `m`: the number of whole copies of `m` that fit in `a`.  The quotient
      and the remainder satisfy Euclid's conditions. */
  function FloorDiv(a: nat, m: nat): (q: nat)
    requires m > 0
    ensures Times(q, m) <= a < Times(q, m) + m
    decreases a
  {
    if a < m then 0 else 1 + FloorDiv(a - m, m)
  }

  /** Euclid's conditions fix the quotient: a `q` with
      `q * m <= a < q * m + m` is the floor division of `a` by `m`. */
  lemma {:induction false} FloorDivUnique(a: nat, m: nat, q: nat)
    requires m > 0 && Times(q, m) <= a < Times(q, m) + m
    ensures FloorDiv(a, m) == q
  {
    var d := FloorDiv(a, m);
    if d < q {
      TimesIncreasing(d, q, m);
    } else if q < d {
      TimesIncreasing(q, d, m);
    }
  }

  /** On non-negative operands the floor division is Dafny's own `/`, which
      is Python's `//` there. */
  lemma FloorDivIsDivision(a: nat, m: nat)
    requires m > 0
    ensures FloorDiv(a, m) == a / m
  {
    TimesIsMultiplication(a / m, m);
    FloorDivUnique(a, m, a / m);
  }

  /** `k` is a multiple of `m`: dividing by `m` is exact. */
  predicate IsMultiple(k: nat, m: nat)
    requires m > 0
  {
    Times(FloorDiv(k, m), m) == k
  }

  /** The reference definition: `k` is the least multiple of `m` that is at
      least `n`. */
  ghost predicate IsLeastMultipleAtLeast(k: nat, n: nat, m: nat)
    requires m > 0
  {
    IsMultiple(k, m) && n <= k &&
    forall j: nat :: IsMultiple(j, m) && n <= j ==> k <= j
  }

  /** Between two consecutive multiples of `m` there is no third one: a
      multiple `k` below `j + m` is at most the multiple `j`. */
  lemma NoMultipleInGap(j: nat, k: nat, m: nat)
    requires m > 0 && IsMultiple(j, m) && IsMultiple(k, m)
    requires k < j + m
    ensures k <= j
  {
    var a, b := FloorDiv(j, m), FloorDiv(k, m);
    if a < b {
      TimesIncreasing(a, b, m);
    } else if b < a {
      TimesIncreasing(b, a, m);
    }
  }

  /** The padded size computed by functional.py for a height or a width,
      `(n + m - 1) // m * m`: a multiple of `m`, no smaller than `n`, and
      less than one whole multiple above it. */
  function RoundUp(n: nat, m: nat): (r: nat)
    requires m > 0
    ensures IsMultiple(r, m)
    ensures n <= r < n + m
  {
    var q := FloorDiv(n + m - 1, m);
    FloorDivUnique(Times(q, m), m, q);
    Times(q, m)
  }

  /** RoundUp meets the reference definition: it is the smallest multiple of
      `m` that is at least `n` (the ceiling of `n / m`, times `m`). */
  lemma RoundUpIsLeastMultiple(n: nat, m: nat)
    requires m > 0
    ensures IsLeastMultipleAtLeast(RoundUp(n, m), n, m)
  {
    var r := RoundUp(n, m);
    forall j: nat | IsMultiple(j, m) && n <= j
      ensures r <= j
    {
      NoMultipleInGap(j, r, m);
    }
  }

  /** The reference definition has at most one solution, so any multiple of
      `m` in the window `[n, n + m)` is the padded size. */
  lemma RoundUpUnique(n: nat, m: nat, k: nat)
    requires m > 0 && IsMultiple(k, m) && n <= k < n + m
    ensures k == RoundUp(n, m)
  {
    var r := RoundUp(n, m);
    NoMultipleInGap(k, r, m);
    NoMultipleInGap(r, k, m);
  }

  /** A size that is already aligned is left as it is. */
  lemma RoundUpOfMultiple(n: nat, m: nat)
    requires m > 0 && IsMultiple(n, m)
    ensures RoundUp(n, m) == n
  {
    RoundUpUnique(n, m, n);
  }

  /** Rounding is idempotent: rounding a padded size again changes nothing. */
  lemma RoundUpIdempotent(n: nat, m: nat)
    requires m > 0
    ensures RoundUp(RoundUp(n, m), m) == RoundUp(n, m)
  {
    RoundUpOfMultiple(RoundUp(n, m), m);
  }

  /** Rounding is monotonic in the size. */
  lemma RoundUpMonotonic(n1: nat, n2: nat, m: nat)
    requires m > 0 && n1 <= n2
    ensures RoundUp(n1, m) <= RoundUp(n2, m)
  {
    RoundUpIsLeastMultiple(n1, m);
  }
}
