# Stride-aligned padding of image batches

This project models the padding helper of the MegEngine detection layers
(`official/vision/detection/layers/basic/functional.py`). `get_padded_array_np`
takes a batch of images of shape `[batch, channel, height, width]`, an
alignment multiple `m` and a pad value. It rounds height and width up to the
next multiple of `m` with `(n + m - 1) // m * m`, allocates a buffer of shape
`[batch, channel, padded_height, padded_width]` filled with the pad value,
copies the input into the top-left `[:height, :width]` corner of every image
and channel, and returns the buffer.

- `padded_size.dfy`, module `PaddedSize`: the round-up arithmetic as the
  function `RoundUp`. Its reference definition is "the least multiple of `m`
  that is at least `n`" (`IsLeastMultipleAtLeast`). The lemmas prove that
  `RoundUp` meets that definition, that it is the only value that does, that
  aligned sizes are unchanged, and that rounding is idempotent and monotonic.
  Python's floor division and the multiplication are written out recursively,
  as `FloorDiv` and `Times`, so the facts about them are proved by induction.
  Lemmas prove that they equal Dafny's `/` and `*` on non-negative operands.
- `padded_array.dfy`, module `PaddedArray`: `PadRank4` models the padding of a
  rank-4 input over Dafny's `array4<T>`. It computes the padded sizes, allocates
  the buffer already filled with the pad value, then copies the input region
  with four nested loops. Its postcondition is the specification predicate
  `IsPaddedCopy`: the shape is right, the input region is copied, and the
  border holds the pad value. `GetPaddedArray` models the whole function,
  including its rank check. `Dispatch` models the order of the two rank checks.
  The lemmas prove padding is the identity on aligned inputs and that padding
  twice gives the same array as padding once.

The code has a copy for rank-3 inputs `[channel, height, width]`, but it cannot
be reached. The shape is unpacked into exactly four names at line 32, before
`ndim` is inspected, so every input whose rank is not 4 fails at that unpack.
The rank-3 copy at lines 45-46 and the "Not supported tensor dim" exception at
lines 47-48 are therefore dead code. The model follows the code: `Dispatch`
proves that rank 4 is the only rank that reaches a copy, and that every other
rank fails with `UnpackError`.

The alignment multiple must be positive. The source does not check this, and a
multiple of 0 makes the floor division at line 34 fail. The model makes
`m > 0` a precondition. Sizes are array dimensions, so they are never negative.
For non-negative operands Python's floor division `//` is Euclidean division,
which `FloorDivIsDivision` ties to Dafny's `/`.

## Model

| member | source | states |
|---|---|---|
| PaddedSize.FloorDiv | official/vision/detection/layers/basic/functional.py:34 | the floor division `a // m` is the quotient `q` with `q * m <= a < q * m + m` |
| PaddedSize.FloorDivUnique | official/vision/detection/layers/basic/functional.py:34 | any `q` with `q * m <= a < q * m + m` is the floor division of `a` by `m` |
| PaddedSize.FloorDivIsDivision | official/vision/detection/layers/basic/functional.py:34 | on non-negative operands the floor division equals Dafny's `/` |
| PaddedSize.TimesIsMultiplication | official/vision/detection/layers/basic/functional.py:34 | repeated addition of `m`, `q` times, equals `q * m` |
| PaddedSize.TimesIncreasing | official/vision/detection/layers/basic/functional.py:34 | more copies of `m` add up to at least one more `m` |
| PaddedSize.RoundUp | official/vision/detection/layers/basic/functional.py:33-36 | the padded size is a multiple of `m`, is at least `n`, and is less than `n + m` |
| PaddedSize.RoundUpIsLeastMultiple | official/vision/detection/layers/basic/functional.py:33-36 | the padded size is the least multiple of `m` that is at least `n` |
| PaddedSize.RoundUpUnique | official/vision/detection/layers/basic/functional.py:33-36 | any multiple of `m` in `[n, n + m)` equals the padded size, so the least-multiple definition fixes it |
| PaddedSize.RoundUpOfMultiple | official/vision/detection/layers/basic/functional.py:33-36 | a size that is already a multiple of `m` is unchanged |
| PaddedSize.RoundUpIdempotent | official/vision/detection/layers/basic/functional.py:33-36 | rounding an already rounded size returns it unchanged |
| PaddedSize.RoundUpMonotonic | official/vision/detection/layers/basic/functional.py:33-36 | a larger size never gets a smaller padded size |
| PaddedSize.NoMultipleInGap | official/vision/detection/layers/basic/functional.py:33-36 | no multiple of `m` lies strictly between two consecutive multiples |
| PaddedArray.Dispatch | official/vision/detection/layers/basic/functional.py:32-48 | only rank 4 reaches a copy; every other rank fails at the four-way unpack, so the rank-3 copy and the unsupported-dim exception are unreachable |
| PaddedArray.PadRank4 | official/vision/detection/layers/basic/functional.py:32-44 | the result is a fresh array of shape `[batch, chl, RoundUp(height), RoundUp(width)]` that holds the input in `[:height, :width]` and the pad value everywhere else |
| PaddedArray.GetPaddedArray | official/vision/detection/layers/basic/functional.py:17-49 | a rank-4 input yields its padded copy in a fresh array; any other rank yields the unpack error carrying that rank |
| PaddedArray.AlignedPaddingIsIdentity | official/vision/detection/layers/basic/functional.py:33-44 | when height and width are already multiples of `m`, the padded array has the input's shape and equals it element by element |
| PaddedArray.PaddingTwiceIsPaddingOnce | official/vision/detection/layers/basic/functional.py:33-44 | padding a padded array again gives the same shape and elements, and the result is still the padded copy of the original input |

## Left out

- `get_padded_tensor` (functional.py:52-88) is not modelled. It builds framework tensors with symbolic shapes and writes the input with the framework's `set_subtensor`, whose behaviour is not visible here. Its size arithmetic (lines 68-71) is the same as lines 33-36, so `PaddedSize.RoundUp` covers it.
- `indexing_set_one_hot` (functional.py:91-93) is not modelled. It only forwards to a framework operator and has no logic of its own.
- The element type is abstract (`T`). The cast into a `float32` buffer and the float multiplication `np.ones(...) * pad_value` at line 39 are not modelled; the buffer is simply allocated holding the pad value.
- The rank-3 copy at lines 45-46 is not modelled as a working copy, because the unpack at line 32 rejects rank-3 inputs before it. `Dispatch` shows that branch is never taken.
- A non-positive `multiple_number` is not modelled. It is a precondition, because the source does not check it and 0 fails with a division error at line 34.
- The default arguments (`multiple_number=32`, `pad_value=0`) are not modelled. The element type is abstract, so it has no 0; in the model both values are passed explicitly.
- The data of an input whose rank is not 4 is not modelled. Only its rank is kept, because the function rejects it before reading any element.
