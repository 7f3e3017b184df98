/** `get_padded_array_np` of the detection layers: pad a batch of images of
    shape [batch, channel, height, width] so that height and width become
    multiples of the alignment multiple.  A fresh buffer of the padded shape
    is filled with the pad value, the input is copied into its top-left
    [:height, :width] corner, and the buffer is returned.  The element type
    is left abstract. */
module PaddedArray {
  import opened PaddedSize

  /** The errors the function can raise.  `UnpackError` is the failure of
      the four-way unpack of the input's shape; `UnsupportedDim` is the
      explicit "not supported tensor dim" exception. */
  datatype PadError = UnpackError(rank: nat) | UnsupportedDim(ndim: nat)

  datatype Result<R> = Success(value: R) | Failure(error: PadError)

  /** The input array: a four-dimensional array, or an array of some other
      rank, whose elements the function never reaches. */
  datatype Input<T> = Rank4(data: array4<T>) | OtherRank(rank: nat)

  type NdArray<T> = x: Input<T> | !x.OtherRank? || x.rank != 4
    witness OtherRank(0)

  /** The number of dimensions of the input (`array.ndim`). */
  function Rank<T>(x: NdArray<T>): nat
  {
    match x
    case Rank4(_) => 4
    case OtherRank(r) => r
  }

  /** Which way the rank check sends the input. */
  datatype Branch = Copy4 | Copy3 | Fail(error: PadError)

  /** The dispatch on `array.ndim` after the buffer is allocated: rank 4 and
      rank 3 each have a copy, any other rank raises. */
  function NdimBranch(ndim: nat): Branch
  {
    if ndim == 4 then Copy4
    else if ndim == 3 then Copy3
    else Fail(UnsupportedDim(ndim))
  }

  /** The whole rank check of the function: the shape is first unpacked into
      exactly four names, which fails for every other rank, and only then is
      `NdimBranch` consulted.  So the rank-3 copy and the "not supported"
      exception are never reached, and every rank but 4 fails at the
      unpack. */
  function Dispatch(rank: nat): (d: Branch)
    ensures d == Copy4 <==> rank == 4
    ensures d != Copy4 ==> d == Fail(UnpackError(rank))
  {
    if rank != 4 then Fail(UnpackError(rank))
    else NdimBranch(rank)
  }

  /** `out` has the shape of the padded buffer for `a`: the batch and channel
      dimensions of `a`, and its height and width rounded up to `m`. */
  ghost predicate HasPaddedShape<T>(out: array4<T>, a: array4<T>, m: nat)
    requires m > 0
  {
    out.Length0 == a.Length0 && out.Length1 == a.Length1 &&
    out.Length2 == RoundUp(a.Length2, m) && out.Length3 == RoundUp(a.Length3, m)
  }

  /** `out` is the padded copy of `a`: it has the padded shape, holds the
      elements of `a` in its top-left height-by-width corner of every image
      and channel, and holds `padValue` everywhere else. */
  ghost predicate IsPaddedCopy<T>(out: array4<T>, a: array4<T>, m: nat, padValue: T)
    requires m > 0
    reads out, a
  {
    HasPaddedShape(out, a, m) &&
    (forall b, c, i, j ::
       0 <= b < a.Length0 && 0 <= c < a.Length1 && 0 <= i < a.Length2 && 0 <= j < a.Length3 ==>
         out[b, c, i, j] == a[b, c, i, j]) &&
    (forall b, c, i, j ::
       0 <= b < out.Length0 && 0 <= c < out.Length1 && 0 <= i < out.Length2 && 0 <= j < out.Length3 &&
       (i >= a.Length2 || j >= a.Length3) ==>
         out[b, c, i, j] == padValue)
  }

  /** Position (b1, c1, i1, j1) comes before (b, c, i, j) in row-major order. */
  predicate RowMajorBefore(b1: int, c1: int, i1: int, j1: int, b: int, c: int, i: int, j: int)
  {
    b1 < b || (b1 == b && (c1 < c || (c1 == c && (i1 < i || (i1 == i && j1 < j)))))
  }

  /** The state of the copy when it has reached position (b, c, i, j) of the
      input: the positions of the input region before it hold the input, all
      others still hold the pad value. */
  ghost predicate CopiedUpTo<T>(out: array4<T>, a: array4<T>, padValue: T, b: int, c: int, i: int, j: int)
    reads out, a
  {
    forall b1, c1, i1, j1 ::
      0 <= b1 < out.Length0 && 0 <= c1 < out.Length1 && 0 <= i1 < out.Length2 && 0 <= j1 < out.Length3 ==>
        out[b1, c1, i1, j1] ==
          if b1 < a.Length0 && c1 < a.Length1 && i1 < a.Length2 && j1 < a.Length3 &&
             RowMajorBefore(b1, c1, i1, j1, b, c, i, j)
          then a[b1, c1, i1, j1] else padValue
  }

  /** The padding of a rank-4 input: compute the padded height and width,
      allocate a buffer of the padded shape filled with `padValue`, then
      assign the input into its [:, :, :height, :width] region. */
  method PadRank4<T>(a: array4<T>, m: nat, padValue: T) returns (out: array4<T>)
    requires m > 0
    ensures fresh(out)
    ensures IsPaddedCopy(out, a, m, padValue)
  {
    var batch, chl, height, width := a.Length0, a.Length1, a.Length2, a.Length3;
    var paddedHeight := RoundUp(height, m);
    var paddedWidth := RoundUp(width, m);
    out := new T[batch, chl, paddedHeight, paddedWidth]((_, _, _, _) => padValue);
    for b := 0 to batch
      invariant CopiedUpTo(out, a, padValue, b, 0, 0, 0)
    {
      for c := 0 to chl
        invariant CopiedUpTo(out, a, padValue, b, c, 0, 0)
      {
        for i := 0 to height
          invariant CopiedUpTo(out, a, padValue, b, c, i, 0)
        {
          for j := 0 to width
            invariant CopiedUpTo(out, a, padValue, b, c, i, j)
          {
            out[b, c, i, j] := a[b, c, i, j];
          }
        }
      }
    }
  }

  /** `get_padded_array_np`: an input of rank 4 is padded; any other rank is
      rejected with the unpack error, never with the rank-3 copy or the
      "not supported" exception. */
  method GetPaddedArray<T>(x: NdArray<T>, m: nat, padValue: T) returns (r: Result<array4<T>>)
    requires m > 0
    ensures r.Failure? <==> Rank(x) != 4
    ensures r.Failure? ==> r.error == UnpackError(Rank(x))
    ensures r.Success? ==> x.Rank4? && fresh(r.value) && IsPaddedCopy(r.value, x.data, m, padValue)
  {
    var d := Dispatch(Rank(x));
    if d.Fail? {
      r := Failure(d.error);
    } else {
      var out := PadRank4(x.data, m, padValue);
      r := Success(out);
    }
  }

  /** Padding an input whose height and width are already multiples of `m`
      gives an array of the same shape, equal to the input element by
      element. */
  lemma AlignedPaddingIsIdentity<T>(a: array4<T>, out: array4<T>, m: nat, padValue: T)
    requires m > 0 && IsPaddedCopy(out, a, m, padValue)
    requires IsMultiple(a.Length2, m) && IsMultiple(a.Length3, m)
    ensures out.Length0 == a.Length0 && out.Length1 == a.Length1
    ensures out.Length2 == a.Length2 && out.Length3 == a.Length3
    ensures forall b, c, i, j ::
      0 <= b < a.Length0 && 0 <= c < a.Length1 && 0 <= i < a.Length2 && 0 <= j < a.Length3 ==>
        out[b, c, i, j] == a[b, c, i, j]
  {
    RoundUpOfMultiple(a.Length2, m);
    RoundUpOfMultiple(a.Length3, m);
  }

  /** Padding is idempotent: padding the padded array again with the same
      multiple and pad value gives an array equal to it, which is again the
      padded copy of the original input. */
  lemma PaddingTwiceIsPaddingOnce<T>(a: array4<T>, once: array4<T>, twice: array4<T>, m: nat, padValue: T)
    requires m > 0
    requires IsPaddedCopy(once, a, m, padValue) && IsPaddedCopy(twice, once, m, padValue)
    ensures twice.Length0 == once.Length0 && twice.Length1 == once.Length1
    ensures twice.Length2 == once.Length2 && twice.Length3 == once.Length3
    ensures forall b, c, i, j ::
      0 <= b < once.Length0 && 0 <= c < once.Length1 && 0 <= i < once.Length2 && 0 <= j < once.Length3 ==>
        twice[b, c, i, j] == once[b, c, i, j]
    ensures IsPaddedCopy(twice, a, m, padValue)
  {
    RoundUpIdempotent(a.Length2, m);
    RoundUpIdempotent(a.Length3, m);
  }
}
