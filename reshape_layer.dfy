/**
 The custom reshape layer. Its only state is the target shape fixed when the
 layer is built; output-shape inference keeps the batch dimension and
 resolves the remaining dimensions of the input against the target.
 */
module ReshapeLayer {
  import opened Shape

  class CustomReshape {
    /** The configured target shape; a negative entry is to be inferred. */
    const targetShape: seq<int>

    constructor (targetShape: seq<int>)
      ensures this.targetShape == targetShape
    {
      this.targetShape := targetShape;
    }

    /** Replaces the one unknown (negative) entry of `outputShape` by the
        dimension that keeps the element count of `inputShape`, scanning the
        target left to right as the layer does. */
    method FixUnknownDimension(inputShape: seq<int>, outputShape: seq<int>) returns (r: Outcome)
      ensures r == Resolve(inputShape, outputShape)
      ensures r == MultipleUnknown <==> HasTwoUnknowns(outputShape)
      ensures r.Resolved? ==> IsCompletion(inputShape, outputShape, r.shape)
    {
      MultipleUnknownIff(inputShape, outputShape);
      ResolvedIsUniqueCompletion(inputShape, outputShape);
      var shape := outputShape;
      var known, unknown := 1, None;
      for index := 0 to |shape|
        invariant known == KnownProduct(shape[..index])
        invariant unknown == FirstUnknown(shape[..index])
        invariant CountUnknown(shape[..index]) <= 1
      {
        var dim := shape[index];
        assert shape[..index + 1][..index] == shape[..index];
        if dim < 0 {
          if unknown == None {
            unknown := Some(index);
          } else {
            CountUnknownPrefix(shape, index + 1);
            return MultipleUnknown;
          }
        } else {
          known := known * dim;
        }
      }
      assert shape[..|shape|] == shape;
      var original := Product(inputShape);
      match unknown {
        case Some(u) =>
          if known == 0 || original % known != 0 {
            return SizeMismatch;
          }
          shape := shape[u := original / known];
        case None =>
          if original != known {
            return SizeMismatch;
          }
      }
      return Resolved(shape);
    }

    /** Output shape of the layer for an input of shape `inputShape`: the
        batch dimension, then the rest of the input resolved against the
        target shape; an error of the resolution is the layer's error. */
    method ComputeOutputShape(inputShape: seq<int>) returns (r: Outcome)
      requires |inputShape| >= 1
      ensures var rest := Resolve(inputShape[1..], targetShape);
        r == if rest.Resolved? then Resolved([inputShape[0]] + rest.shape) else rest
      ensures r.Resolved? ==> |r.shape| == 1 + |targetShape| && r.shape[0] == inputShape[0]
      ensures r.Resolved? ==> Product(r.shape) == Product(inputShape)
    {
      var rest := FixUnknownDimension(inputShape[1..], targetShape);
      if rest.Resolved? {
        var batch := [inputShape[0]];
        assert batch + inputShape[1..] == inputShape;
        ProductAppend(batch, inputShape[1..]);
        ProductAppend(batch, rest.shape);
        r := Resolved(batch + rest.shape);
      } else {
        r := rest;
      }
    }
  }
}
