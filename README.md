# Reshape layer shape inference, in Dafny

This project models the shape inference of the `custom_reshape` layer in
`reshape_layer.py`. The layer is configured with a target shape that may
hold one negative entry, meaning "infer this dimension". When it computes
its output shape, the layer keeps the batch dimension of the input. It then
resolves the other input dimensions against the target with
`_fix_unknown_dimension`, which is a port of NumPy's routine of the same name.

`shape.dfy` (module `Shape`) holds the values:

- `Outcome`: the resolved shape, or one of the two errors the layer raises:
  "Can only specify one unknown dimension." (`MultipleUnknown`) and
  "total size of new array must be unchanged" (`SizeMismatch`).
- `Product`: the element count, which is `np.prod` over mathematical integers.
- `KnownProduct` and `FirstUnknown`: the scan's accumulators `known` and
  `unknown` once it has seen the whole target.
- `CountUnknown`: stands for the scan's "unknown already set" test, which
  raises at the second negative entry (reshape_layer.py:32-35);
  `TwoUnknownsIff` ties a count of two or more to two negative entries.
- `Resolve`: the resolution as a function of its two arguments.
- The lemmas that say what the resolution means. A resolved shape is the one
  and only *completion* of the target (`IsCompletion`): it has the same
  length, keeps every known entry, and has the input's element count. A size
  mismatch means there is no completion, or more than one.

`reshape_layer.dfy` (module `ReshapeLayer`) holds the class `CustomReshape`:

- its one immutable field, `targetShape`;
- `FixUnknownDimension`: the left-to-right scan as a loop over the accumulators
  `known` and `unknown`, followed by the write into the unknown slot. It is
  proved equal to `Resolve`.
- `ComputeOutputShape`.

Division: the source uses Python's `%` and `//`. They are reached only with
`known > 0`, and for a positive divisor they agree with Dafny's Euclidean
`%` and `/`. So no conversion is needed, even for a negative element count.

The model follows the code's behaviour on every integer input. This is wider
than the docstring's "at most a single -1" (reshape_layer.py:18-20):

- Any negative target entry is an unknown dimension, not only `-1`.
- Zero entries are allowed in both shapes.
- Input dimensions are arbitrary integers. When the input dimensions are
  non-negative, a resolved shape is guaranteed to have no negative entry
  (`ResolveNonNegative`).

## Model

| member | source | states |
|---|---|---|
| `Shape.KnownProduct` | reshape_layer.py:29-37 | the `known` accumulator (product of the non-negative target entries) is never negative |
| `Shape.CountUnknown` | reshape_layer.py:30-35 | the number of unknown entries is zero exactly when every entry is non-negative |
| `Shape.FirstUnknown` | reshape_layer.py:29-33 | the `unknown` accumulator is the index of a negative entry that no earlier negative entry precedes, and it is absent exactly when there is no negative entry |
| `Shape.ProductPermutation` | reshape_layer.py:39 | the element count of a shape depends only on the multiset of its dimensions |
| `Shape.MultipleUnknownIff` | reshape_layer.py:30-35 | the result is the "only one unknown dimension" error exactly when the target has two negative entries, for every input: the scan's check takes precedence over the size checks |
| `Shape.SingleUnknownResolution` | reshape_layer.py:39-43 | with exactly one negative entry, at u, the result is a size mismatch when the product of the other entries is zero or does not divide the input's element count; otherwise it is the target with slot u set to the quotient |
| `Shape.FullyKnownResolution` | reshape_layer.py:44-47 | with no negative entry, resolution succeeds exactly when the element counts agree, and then returns the target unchanged |
| `Shape.ResolvedIsUniqueCompletion` | reshape_layer.py:26-47 | a resolved shape has the target's length, keeps every non-negative target entry, has the input's element count, and is the only shape with these three properties |
| `Shape.MismatchHasNoUniqueCompletion` | reshape_layer.py:40-45 | after a size mismatch there is no completion of the target, or there are two different ones |
| `Shape.ResolveNonNegative` | reshape_layer.py:39-43 | when all input dimensions are non-negative, a resolved shape has no negative entry |
| `Shape.PermutedShapeResolves` | reshape_layer.py:44-47 | a permutation of a shape of non-negative dimensions, empty shapes included, resolves to itself against that shape |
| `Shape.PermutedShapeWithUnknownResolves` | reshape_layer.py:39-43 | a permutation of a shape of positive dimensions with any one entry replaced by -1 resolves to that permutation against that shape |
| `Shape.ResolveExamples` | reshape_layer.py:26-47 | (2,3,4) against (-1,4) gives (6,4); against (-1,5) a size mismatch; against (-1,-1,2) the multiple-unknown error; against (6,4) gives (6,4); against (6,5) a size mismatch; (1) against (-1) gives (1) |
| `ReshapeLayer.CustomReshape.constructor` | reshape_layer.py:8-10 | the layer stores the target shape it is given |
| `ReshapeLayer.CustomReshape.FixUnknownDimension` | reshape_layer.py:12-47 | the scan-and-resolve loop computes `Resolve`; it fails with the multiple-unknown error exactly when the target has two negative entries, and a resolved shape is a completion of the target |
| `ReshapeLayer.CustomReshape.ComputeOutputShape` | reshape_layer.py:49-51 | the output shape is the batch dimension followed by the resolution of the other input dimensions against the target shape, or that resolution's error; a resolved output has length 1 + the target's length and the input's element count |

## Left out

- `call` (reshape_layer.py:53-71): apart from the call to `compute_output_shape` at line 66, whose result is stored but never read afterwards, it is made of split, concatenate, squeeze and transpose operations and a shape query of the tensor library, all foreign code. Its test at line 58 matches only `-1`, not every negative entry. Line 67 reads `input_shape`, which is never assigned when the target holds no `-1`.
- `get_config` and the framework's layer lifecycle (reshape_layer.py:9, 73-76): framework plumbing with no behaviour of its own.
- `Product` uses mathematical integers, so it does not model the fixed-width overflow of `np.prod(..., dtype=int)`.
- Unknown (`None`) dimensions that the framework may place in an input shape are not modelled; every dimension is an integer.
- ReshapeLayer.CustomReshape.ComputeOutputShape: requires a non-empty input shape. On an empty one the source's `input_shape[0]` raises an index error, which is not one of the layer's own errors, so it is not modelled as an outcome.
- The error messages are not modelled; each error is modelled by its kind only.
- The list that `_fix_unknown_dimension` writes into is a fresh copy of the target (reshape_layer.py:26), so it is modelled as a local sequence value that is updated at one index.
