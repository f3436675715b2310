/**
 Shape arithmetic of the reshape layer: element counts, the scan that a
 target shape undergoes, and the resolution of a target shape that may
 carry one unknown (negative) dimension against an input shape.

 A shape is a sequence of integers. In a target shape a negative entry means
 "infer this dimension from the element count of the input".
 */
module Shape {

  datatype Option<T> = None | Some(value: T)

  /** What resolving a target shape produces: the resolved shape, or one of
      the two errors the layer raises. */
  datatype Outcome =
    | Resolved(shape: seq<int>)
    | MultipleUnknown  // more than one negative entry in the target
    | SizeMismatch     // the total size of the array would change

  /** Number of elements of an array of shape s; the empty shape has one.
      Defined from the last dimension backwards, the way a left-to-right
      scan extends its running product. */
  function Product(s: seq<int>): int
  {
    if |s| == 0 then 1 else Product(s[..|s| - 1]) * s[|s| - 1]
  }

  /** Product of the non-negative entries of s: the `known` accumulator of
      the scan once it has seen all of s. */
  function KnownProduct(s: seq<int>): (k: int)
    ensures k >= 0
  {
    if |s| == 0 then 1
    else if s[|s| - 1] < 0 then KnownProduct(s[..|s| - 1])
    else KnownProduct(s[..|s| - 1]) * s[|s| - 1]
  }

  /** Number of negative (unknown) entries of s. */
  function CountUnknown(s: seq<int>): (c: nat)
    ensures c == 0 <==> forall i :: 0 <= i < |s| ==> s[i] >= 0
  {
    if |s| == 0 then 0
    else CountUnknown(s[..|s| - 1]) + (if s[|s| - 1] < 0 then 1 else 0)
  }

  /** Index of the first negative entry of s, if there is one: the
      `unknown` accumulator of the scan once it has seen all of s. */
  function FirstUnknown(s: seq<int>): (u: Option<nat>)
    ensures u.Some? ==> u.value < |s| && s[u.value] < 0
    ensures u.Some? ==> forall i :: 0 <= i < u.value ==> s[i] >= 0
    ensures u.None? <==> CountUnknown(s) == 0
  {
    if |s| == 0 then None
    else match FirstUnknown(s[..|s| - 1])
      case Some(i) => Some(i)
      case None => if s[|s| - 1] < 0 then Some(|s| - 1) else None
  }

  /** s holds two distinct negative entries. */
  predicate HasTwoUnknowns(s: seq<int>)
  {
    exists i, j :: 0 <= i < j < |s| && s[i] < 0 && s[j] < 0
  }

  /** Resolution of `output` against `input`, as `_fix_unknown_dimension`
      computes it: the scan rejects a second unknown entry before any size
      is compared; then the one unknown entry, if present, receives the
      quotient of the input's element count by the known product. */
  function Resolve(input: seq<int>, output: seq<int>): Outcome
  {
    if CountUnknown(output) >= 2 then MultipleUnknown
    else
      var known := KnownProduct(output);
      var original := Product(input);
      match FirstUnknown(output)
      case Some(u) =>
        if known == 0 || original % known != 0 then SizeMismatch
        else Resolved(output[u := original / known])
      case None =>
        if original != known then SizeMismatch else Resolved(output)
  }

  /** r is a way of filling in `output` that keeps the element count of
      `input`: same length, the same value at every non-negative entry. */
  predicate IsCompletion(input: seq<int>, output: seq<int>, r: seq<int>)
  {
    |r| == |output| &&
    (forall i :: 0 <= i < |output| && output[i] >= 0 ==> r[i] == output[i]) &&
    Product(r) == Product(input)
  }

  // ---------------------------------------------------------------------
  // Facts about products and the scan

  lemma {:induction false} ProductAppend(s: seq<int>, t: seq<int>)
    ensures Product(s + t) == Product(s) * Product(t)
    decreases |t|
  {
    if |t| == 0 {
      assert s + t == s;
    } else {
      var t' := t[..|t| - 1];
      assert (s + t)[..|s + t| - 1] == s + t';
      ProductAppend(s, t');
      assert Product(s + t) == Product(s) * Product(t') * t[|t| - 1];
    }
  }

  lemma {:induction false} KnownProductAppend(s: seq<int>, t: seq<int>)
    ensures KnownProduct(s + t) == KnownProduct(s) * KnownProduct(t)
    decreases |t|
  {
    if |t| == 0 {
      assert s + t == s;
    } else {
      var t', x := t[..|t| - 1], t[|t| - 1];
      assert (s + t)[..|s + t| - 1] == s + t';
      KnownProductAppend(s, t');
      if x >= 0 {
        MulAssoc(KnownProduct(s), KnownProduct(t'), x);
      }
    }
  }

  /** Without unknown entries, `known` is the element count of the shape. */
  lemma {:induction false} KnownProductOfKnown(s: seq<int>)
    requires forall i :: 0 <= i < |s| ==> s[i] >= 0
    ensures KnownProduct(s) == Product(s)
    decreases |s|
  {
    if |s| > 0 {
      KnownProductOfKnown(s[..|s| - 1]);
    }
  }

  lemma {:induction false} ProductNonNegative(s: seq<int>)
    requires forall i :: 0 <= i < |s| ==> s[i] >= 0
    ensures Product(s) >= 0
    decreases |s|
  {
    if |s| > 0 {
      ProductNonNegative(s[..|s| - 1]);
    }
  }

  lemma {:induction false} ProductPositive(s: seq<int>)
    requires forall i :: 0 <= i < |s| ==> s[i] > 0
    ensures Product(s) > 0
    decreases |s|
  {
    if |s| > 0 {
      ProductPositive(s[..|s| - 1]);
    }
  }

  lemma MultisetWithout(b: seq<int>, j: nat)
    requires j < |b|
    ensures multiset(b[..j] + b[j + 1..]) == multiset(b) - multiset{b[j]}
  {
    assert b == b[..j] + [b[j]] + b[j + 1..];
  }

  /** Taking dimension j out of a shape divides its element count by b[j]. */
  lemma ProductWithout(b: seq<int>, j: nat)
    requires j < |b|
    ensures Product(b) == b[j] * Product(b[..j] + b[j + 1..])
  {
    var lo, hi := b[..j], b[j + 1..];
    assert b == lo + [b[j]] + hi;
    ProductAround(lo, b[j], hi);
    ProductAppend(lo, hi);
    MulSwap(Product(lo), b[j], Product(hi));
  }

  /** The element count depends only on the multiset of dimensions. */
  lemma {:induction false} ProductPermutation(a: seq<int>, b: seq<int>)
    requires multiset(a) == multiset(b)
    ensures Product(a) == Product(b)
    decreases |a|
  {
    if |a| == 0 {
      assert |b| == |multiset(b)| == 0;
    } else {
      var x, a' := a[|a| - 1], a[..|a| - 1];
      assert a == a' + [x];
      assert multiset(a') == multiset(a) - multiset{x};
      assert x in b by {
        assert x in multiset(a);
      }
      var j :| 0 <= j < |b| && b[j] == x;
      var b' := b[..j] + b[j + 1..];
      MultisetWithout(b, j);
      ProductPermutation(a', b');
      ProductWithout(b, j);
      assert Product(a) == Product(a') * x;
    }
  }

  lemma MulAssoc(a: int, b: int, c: int)
    ensures a * b * c == a * (b * c)
  {
  }

  lemma MulSwap(a: int, b: int, c: int)
    ensures a * b * c == b * (a * c)
  {
  }

  lemma SmallMultipleIsZero(k: int, d: int)
    requires k > 0 && 0 <= k * d < k
    ensures d == 0
  {
  }

  lemma MultipleOfPositive(a: int, k: int)
    requires k > 0
    ensures (a * k) % k == 0 && (a * k) / k == a
  {
    var q, m := (a * k) / k, (a * k) % k;
    assert k * (a - q) == m;
    SmallMultipleIsZero(k, a - q);
  }

  /** Which pairs of negative entries the count of unknowns detects. */
  lemma {:induction false} TwoUnknownsIff(s: seq<int>)
    ensures CountUnknown(s) >= 2 <==> HasTwoUnknowns(s)
    decreases |s|
  {
    if |s| > 0 {
      var n := |s| - 1;
      var p := s[..n];
      TwoUnknownsIff(p);
      if HasTwoUnknowns(p) {
        var i, j :| 0 <= i < j < |p| && p[i] < 0 && p[j] < 0;
        assert s[i] < 0 && s[j] < 0;
      }
      if HasTwoUnknowns(s) {
        var i, j :| 0 <= i < j < |s| && s[i] < 0 && s[j] < 0;
        if j < n {
          assert p[i] < 0 && p[j] < 0;
        } else {
          assert p[i] < 0;
        }
      }
      if s[n] < 0 && CountUnknown(p) >= 1 {
        var i :| 0 <= i < |p| && p[i] < 0;
        assert s[i] < 0 && s[n] < 0;
      }
    }
  }

  /** A prefix holds no more unknown entries than the whole shape. */
  lemma {:induction false} CountUnknownPrefix(s: seq<int>, n: nat)
    requires n <= |s|
    ensures CountUnknown(s[..n]) <= CountUnknown(s)
    decreases |s|
  {
    if n < |s| {
      var p := s[..|s| - 1];
      assert s[..n] == p[..n];
      CountUnknownPrefix(p, n);
    } else {
      assert s[..n] == s;
    }
  }

  /** When the scan accepts the target and found an unknown entry, every
      other entry is non-negative. */
  lemma UniqueUnknown(s: seq<int>, u: nat)
    requires CountUnknown(s) <= 1 && FirstUnknown(s) == Some(u)
    ensures forall i :: 0 <= i < |s| && i != u ==> s[i] >= 0
  {
    TwoUnknownsIff(s);
    forall i | 0 <= i < |s| && i != u
      ensures s[i] >= 0
    {
      assert i < u ==> s[i] >= 0;
      assert u < i ==> !(s[u] < 0 && s[i] < 0);
    }
  }

  /** A target whose only negative entry is at u passes the scan with
      `unknown == u`. */
  lemma OnlyUnknownAt(s: seq<int>, u: nat)
    requires u < |s| && s[u] < 0
    requires forall i :: 0 <= i < |s| && i != u ==> s[i] >= 0
    ensures CountUnknown(s) == 1 && FirstUnknown(s) == Some(u)
  {
    TwoUnknownsIff(s);
    assert !HasTwoUnknowns(s);
  }

  lemma ProductAround(lo: seq<int>, x: int, hi: seq<int>)
    ensures Product(lo + [x] + hi) == Product(lo) * x * Product(hi)
  {
    assert (lo + [x])[..|lo|] == lo;
    ProductAppend(lo + [x], hi);
  }

  lemma KnownProductAround(lo: seq<int>, x: int, hi: seq<int>)
    requires x < 0
    ensures KnownProduct(lo + [x] + hi) == KnownProduct(lo) * KnownProduct(hi)
  {
    assert (lo + [x])[..|lo|] == lo;
    KnownProductAppend(lo + [x], hi);
  }

  /** With a single negative entry at u, the element count of a shape r
      that agrees with `output` everywhere else is r[u] times `known`, and
      `known` is the product of the entries other than u. */
  lemma ProductAroundUnknown(output: seq<int>, r: seq<int>, u: nat)
    requires |r| == |output| && u < |output| && output[u] < 0
    requires forall i :: 0 <= i < |output| && i != u ==> output[i] >= 0 && r[i] == output[i]
    ensures KnownProduct(output) == Product(output[..u] + output[u + 1..])
    ensures Product(r) == r[u] * KnownProduct(output)
  {
    var lo, hi := output[..u], output[u + 1..];
    assert output == lo + [output[u]] + hi;
    assert r == lo + [r[u]] + hi;
    KnownProductAround(lo, output[u], hi);
    KnownProductOfKnown(lo);
    KnownProductOfKnown(hi);
    ProductAppend(lo, hi);
    ProductAround(lo, r[u], hi);
    MulSwap(Product(lo), r[u], Product(hi));
  }

  // ---------------------------------------------------------------------
  // Properties of the resolution

  /** The "only one unknown dimension" error fires exactly when the target
      has two negative entries, whatever the input: it takes precedence
      over every size check. */
  lemma MultipleUnknownIff(input: seq<int>, output: seq<int>)
    ensures Resolve(input, output) == MultipleUnknown <==> HasTwoUnknowns(output)
  {
    TwoUnknownsIff(output);
  }

  /** With exactly one negative entry, at u: the size check rejects a zero
      or non-dividing product of the other entries, and otherwise slot u
      receives the quotient and nothing else changes. */
  lemma SingleUnknownResolution(input: seq<int>, output: seq<int>, u: nat)
    requires u < |output| && output[u] < 0
    requires forall i :: 0 <= i < |output| && i != u ==> output[i] >= 0
    ensures var known := Product(output[..u] + output[u + 1..]);
      Resolve(input, output) ==
        if known == 0 || Product(input) % known != 0 then SizeMismatch
        else Resolved(output[u := Product(input) / known])
  {
    OnlyUnknownAt(output, u);
    ProductAroundUnknown(output, output, u);
  }

  /** With no negative entry the resolution succeeds exactly when the two
      element counts agree, and then returns the target unchanged. */
  lemma FullyKnownResolution(input: seq<int>, output: seq<int>)
    requires forall i :: 0 <= i < |output| ==> output[i] >= 0
    ensures Resolve(input, output) ==
      if Product(input) == Product(output) then Resolved(output) else SizeMismatch
  {
    KnownProductOfKnown(output);
  }

  /** A successful resolution is a completion of the target (same length,
      the known entries kept, the element count of the input), and it is
      the only one. */
  lemma ResolvedIsUniqueCompletion(input: seq<int>, output: seq<int>)
    ensures Resolve(input, output).Resolved? ==>
      IsCompletion(input, output, Resolve(input, output).shape)
    ensures Resolve(input, output).Resolved? ==>
      forall r :: IsCompletion(input, output, r) ==> r == Resolve(input, output).shape
  {
    var res := Resolve(input, output);
    if res.Resolved? {
      var original, known := Product(input), KnownProduct(output);
      match FirstUnknown(output)
      case Some(u) =>
        UniqueUnknown(output, u);
        var q := original / known;
        assert res.shape == output[u := q];
        ProductAroundUnknown(output, res.shape, u);
        assert Product(res.shape) == q * known == original;
        forall r | IsCompletion(input, output, r)
          ensures r == res.shape
        {
          ProductAroundUnknown(output, r, u);
          MultipleOfPositive(r[u], known);
          MultipleOfPositive(q, known);
        }
      case None =>
        KnownProductOfKnown(output);
        forall r | IsCompletion(input, output, r)
          ensures r == res.shape
        {
        }
    }
  }

  /** A size mismatch means there is no completion of the target, or more
      than one (an unknown entry next to a zero dimension of a zero-element
      input). */
  lemma MismatchHasNoUniqueCompletion(input: seq<int>, output: seq<int>)
    requires Resolve(input, output) == SizeMismatch
    ensures (forall r :: !IsCompletion(input, output, r)) ||
      exists r1, r2 :: IsCompletion(input, output, r1) && IsCompletion(input, output, r2) && r1 != r2
  {
    var original, known := Product(input), KnownProduct(output);
    match FirstUnknown(output)
    case Some(u) =>
      UniqueUnknown(output, u);
      if known == 0 && original == 0 {
        var r1, r2 := output[u := 0], output[u := 1];
        ProductAroundUnknown(output, r1, u);
        ProductAroundUnknown(output, r2, u);
        assert r1[u] != r2[u];
        assert IsCompletion(input, output, r1) && IsCompletion(input, output, r2);
      } else {
        forall r | |r| == |output| && forall i :: 0 <= i < |output| && output[i] >= 0 ==> r[i] == output[i]
          ensures Product(r) != original
        {
          ProductAroundUnknown(output, r, u);
          if known > 0 {
            MultipleOfPositive(r[u], known);
          }
        }
      }
    case None =>
      KnownProductOfKnown(output);
      forall r | |r| == |output| && forall i :: 0 <= i < |output| && output[i] >= 0 ==> r[i] == output[i]
        ensures Product(r) != original
      {
        assert r == output;
      }
  }

  /** When every input dimension is non-negative, a resolved shape has no
      negative entry left. */
  lemma ResolveNonNegative(input: seq<int>, output: seq<int>)
    requires forall i :: 0 <= i < |input| ==> input[i] >= 0
    ensures Resolve(input, output).Resolved? ==>
      forall i :: 0 <= i < |Resolve(input, output).shape| ==> Resolve(input, output).shape[i] >= 0
  {
    ProductNonNegative(input);
    if Resolve(input, output).Resolved? {
      match FirstUnknown(output)
      case Some(u) =>
        UniqueUnknown(output, u);
      case None =>
    }
  }

  /** A permutation of a shape of non-negative dimensions resolves to
      itself against that shape. */
  lemma PermutedShapeResolves(input: seq<int>, target: seq<int>)
    requires forall i :: 0 <= i < |input| ==> input[i] >= 0
    requires multiset(target) == multiset(input)
    ensures Resolve(input, target) == Resolved(target)
  {
    ProductPermutation(input, target);
    forall i | 0 <= i < |target|
      ensures target[i] >= 0
    {
      assert target[i] in multiset(input);
    }
    FullyKnownResolution(input, target);
  }

  /** A permutation of a shape of positive dimensions, with any one entry
      replaced by -1, resolves to that permutation against that shape. */
  lemma PermutedShapeWithUnknownResolves(input: seq<int>, target: seq<int>, k: nat)
    requires forall i :: 0 <= i < |input| ==> input[i] > 0
    requires multiset(target) == multiset(input)
    requires k < |target|
    ensures Resolve(input, target[k := -1]) == Resolved(target)
  {
    ProductPermutation(input, target);
    forall i | 0 <= i < |target|
      ensures target[i] > 0
    {
      assert target[i] in multiset(input);
    }
    var t := target[k := -1];
    SingleUnknownResolution(input, t, k);
    ProductAroundUnknown(t, target, k);
    assert t[..k] + t[k + 1..] == target[..k] + target[k + 1..];
    ProductPositive(target[..k] + target[k + 1..]);
    MultipleOfPositive(target[k], KnownProduct(t));
    assert t[k := target[k]] == target;
  }

  /** Worked examples of the resolution. */
  lemma ResolveExamples()
    ensures Resolve([2, 3, 4], [-1, 4]) == Resolved([6, 4])
    ensures Resolve([2, 3, 4], [-1, 5]) == SizeMismatch
    ensures Resolve([2, 3, 4], [-1, -1, 2]) == MultipleUnknown
    ensures Resolve([2, 3, 4], [6, 4]) == Resolved([6, 4])
    ensures Resolve([2, 3, 4], [6, 5]) == SizeMismatch
    ensures Resolve([1], [-1]) == Resolved([1])
  {
    assert [2, 3, 4][..2] == [2, 3] && [2, 3][..1] == [2] && [2][..0] == [];
    assert [-1, 4][..1] == [-1] && [-1][..0] == [];
    assert [-1, 5][..1] == [-1];
    assert [-1, -1, 2][..2] == [-1, -1] && [-1, -1][..1] == [-1];
    assert [6, 4][..1] == [6] && [6][..0] == [];
    assert [6, 5][..1] == [6];
    assert [1][..0] == [];
  }
}
