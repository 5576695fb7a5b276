/** Axis permutations as used by transpose: a pattern maps source axis a to
    destination axis pattern[a]. Scatter and Gather move a multi-index between
    the two axis orders. */
module Permutations {
  import opened Shapes

  /** Every value below the length, and no value twice. */
  predicate IsPermutation(p: seq<nat>)
  {
    (forall a :: 0 <= a < |p| ==> p[a] < |p|) &&
    (forall a1, a2 :: 0 <= a1 < a2 < |p| ==> p[a1] != p[a2])
  }

  /** The first position holding v. */
  function IndexOf(p: seq<nat>, v: nat): (r: nat)
    requires v in p
    ensures r < |p| && p[r] == v
    ensures forall a :: 0 <= a < r ==> p[a] != v
  {
    if p[0] == v then 0 else 1 + IndexOf(p[1..], v)
  }

  /** Pigeonhole: a permutation takes every value below its length. */
  lemma {:induction false} PermutationOnto(p: seq<nat>)
    requires IsPermutation(p)
    ensures forall v :: 0 <= v < |p| ==> v in p
    decreases |p|
  {
    var n := |p|;
    if n == 0 {
      return;
    }
    // Drop the last position and close the gap its value leaves.
    var m := p[n - 1];
    var q := seq(n - 1, a requires 0 <= a < n - 1 => if p[a] < m then p[a] else p[a] - 1);
    assert IsPermutation(q) by {
      forall a | 0 <= a < n - 1 ensures q[a] < n - 1 {
        assert p[a] != m;
      }
      forall a1, a2 | 0 <= a1 < a2 < n - 1 ensures q[a1] != q[a2] {
        assert p[a1] != p[a2] && p[a1] != m && p[a2] != m;
      }
    }
    PermutationOnto(q);
    forall v | 0 <= v < n ensures v in p {
      if v == m {
        assert p[n - 1] == v;
      } else if v < m {
        assert v in q;
        var a :| 0 <= a < n - 1 && q[a] == v;
        assert p[a] == v;
      } else {
        assert v - 1 in q;
        var a :| 0 <= a < n - 1 && q[a] == v - 1;
        assert p[a] == v;
      }
    }
  }

  /** Position a of the result holds u at the source axis that pattern maps to a. */
  function Scatter(u: seq<nat>, p: seq<nat>): (w: seq<nat>)
    requires IsPermutation(p) && |u| == |p|
    ensures |w| == |p|
    ensures forall a :: 0 <= a < |p| ==> w[p[a]] == u[a]
  {
    PermutationOnto(p);
    var w := seq(|p|, b requires 0 <= b < |p| => u[IndexOf(p, b)]);
    assert forall a :: 0 <= a < |p| ==> IndexOf(p, p[a]) == a;
    w
  }

  /** Scatter is determined by where it puts each element. */
  lemma ScatterUnique(w: seq<nat>, u: seq<nat>, p: seq<nat>)
    requires IsPermutation(p) && |u| == |p| == |w|
    requires forall a :: 0 <= a < |p| ==> w[p[a]] == u[a]
    ensures w == Scatter(u, p)
  {
    PermutationOnto(p);
    forall b | 0 <= b < |p| ensures w[b] == Scatter(u, p)[b] {
      var a := IndexOf(p, b);
      assert w[p[a]] == u[a];
    }
  }

  /** Position a of the result holds w at the destination axis p[a]. */
  function Gather(w: seq<nat>, p: seq<nat>): (u: seq<nat>)
    requires IsPermutation(p) && |w| == |p|
    ensures |u| == |p|
  {
    seq(|p|, a requires 0 <= a < |p| => w[p[a]])
  }

  lemma GatherScatter(u: seq<nat>, p: seq<nat>)
    requires IsPermutation(p) && |u| == |p|
    ensures Gather(Scatter(u, p), p) == u
  {
  }

  lemma ScatterGather(w: seq<nat>, p: seq<nat>)
    requires IsPermutation(p) && |w| == |p|
    ensures Scatter(Gather(w, p), p) == w
  {
    var u := Gather(w, p);
    var v := Scatter(u, p);
    PermutationOnto(p);
    forall b | 0 <= b < |p| ensures v[b] == w[b] {
      var a := IndexOf(p, b);
      assert v[p[a]] == u[a];
    }
  }

  /** The inverse permutation: entry b is the axis that p sends to b. */
  function Inverse(p: seq<nat>): (q: seq<nat>)
    requires IsPermutation(p)
    ensures |q| == |p| && IsPermutation(q)
    ensures forall a :: 0 <= a < |p| ==> q[p[a]] == a
    ensures forall b :: 0 <= b < |p| ==> p[q[b]] == b
  {
    PermutationOnto(p);
    var q := seq(|p|, b requires 0 <= b < |p| => IndexOf(p, b));
    assert forall a :: 0 <= a < |p| ==> IndexOf(p, p[a]) == a;
    q
  }

  /** Scattering by p is gathering by its inverse. */
  lemma ScatterIsGatherInverse(u: seq<nat>, p: seq<nat>)
    requires IsPermutation(p) && |u| == |p|
    ensures Scatter(u, p) == Gather(u, Inverse(p))
  {
    var q := Inverse(p);
    forall b | 0 <= b < |p| ensures Scatter(u, p)[b] == Gather(u, q)[b] {
      assert Scatter(u, p)[p[q[b]]] == u[q[b]];
    }
  }

  /** The shape loop of transpose_impl after its first i steps: a zero vector
      in which shape'[pattern[a]] has been set to shape[a] for each a < i. */
  function PermuteShapeUpTo(shape: seq<nat>, p: seq<nat>, i: nat): (t: seq<nat>)
    requires |p| == |shape| && i <= |shape|
    requires forall a :: 0 <= a < |p| ==> p[a] < |p|
    ensures |t| == |shape|
  {
    if i == 0 then seq(|shape|, _ => 0)
    else PermuteShapeUpTo(shape, p, i - 1)[p[i - 1] := shape[i - 1]]
  }

  function PermuteShape(shape: seq<nat>, p: seq<nat>): (t: seq<nat>)
    requires |p| == |shape|
    requires forall a :: 0 <= a < |p| ==> p[a] < |p|
    ensures |t| == |shape|
  {
    PermuteShapeUpTo(shape, p, |shape|)
  }

  /** Under a permutation the loop lands every extent at its destination axis:
      shape'[pattern[a]] == shape[a]. */
  lemma {:induction false} PermuteShapeUpToAt(shape: seq<nat>, p: seq<nat>, i: nat)
    requires |p| == |shape| && i <= |shape| && IsPermutation(p)
    ensures forall a :: 0 <= a < i ==> PermuteShapeUpTo(shape, p, i)[p[a]] == shape[a]
  {
    if i > 0 {
      PermuteShapeUpToAt(shape, p, i - 1);
    }
  }

  /** The permuted shape puts each extent at its new axis and has as many
      elements as the original. */
  lemma PermuteShapeAt(shape: seq<nat>, p: seq<nat>)
    requires |p| == |shape| && IsPermutation(p)
    ensures forall a :: 0 <= a < |p| ==> PermuteShape(shape, p)[p[a]] == shape[a]
    ensures Product(PermuteShape(shape, p)) == Product(shape)
  {
    PermuteShapeUpToAt(shape, p, |shape|);
    ProductPermuted(shape, PermuteShape(shape, p), p);
  }

  /** Permuting a shape by p and then by the inverse of p gives it back. */
  lemma PermuteShapeInverse(shape: seq<nat>, p: seq<nat>)
    requires |p| == |shape| && IsPermutation(p)
    ensures PermuteShape(PermuteShape(shape, p), Inverse(p)) == shape
  {
    var t, q := PermuteShape(shape, p), Inverse(p);
    PermuteShapeAt(shape, p);
    PermuteShapeAt(t, q);
    forall a | 0 <= a < |p| ensures PermuteShape(t, q)[a] == shape[a] {
      assert PermuteShape(t, q)[q[p[a]]] == t[p[a]];
    }
  }

  /** Reordering the extents does not change the element count. */
  lemma {:induction false} ProductPermuted(s: seq<nat>, t: seq<nat>, p: seq<nat>)
    requires |s| == |t| == |p| && IsPermutation(p)
    requires forall a :: 0 <= a < |p| ==> t[p[a]] == s[a]
    ensures Product(t) == Product(s)
    decreases |s|
  {
    if |s| > 0 {
      var b := p[0];
      var t' := t[..b] + t[b + 1..];
      var p' := DropFirst(p);
      DropFirstMaps(s, t, p);
      ProductPermuted(s[1..], t', p');
      ProductRemove(t, b);
    }
  }

  /** The pattern of the remaining axes once axis 0 and its destination are
      removed: destinations above p[0] move down by one. */
  function DropFirst(p: seq<nat>): (q: seq<nat>)
    requires |p| > 0 && IsPermutation(p)
    ensures |q| == |p| - 1 && IsPermutation(q)
  {
    var n, b := |p|, p[0];
    assert forall a :: 1 <= a < n ==> p[a] != b;
    var q := seq(n - 1, a requires 0 <= a < n - 1 => if p[a + 1] < b then p[a + 1] else p[a + 1] - 1);
    assert forall a1, a2 :: 0 <= a1 < a2 < n - 1 ==> q[a1] != q[a2] by {
      forall a1, a2 | 0 <= a1 < a2 < n - 1 ensures q[a1] != q[a2] {
        assert p[a1 + 1] != p[a2 + 1];
      }
    }
    q
  }

  lemma DropFirstMaps(s: seq<nat>, t: seq<nat>, p: seq<nat>)
    requires |s| == |t| == |p| > 0 && IsPermutation(p)
    requires forall a :: 0 <= a < |p| ==> t[p[a]] == s[a]
    ensures var b := p[0]; forall a :: 0 <= a < |p| - 1 ==>
      (t[..b] + t[b + 1..])[DropFirst(p)[a]] == s[1..][a]
  {
    var b := p[0];
    var t' := t[..b] + t[b + 1..];
    var q := DropFirst(p);
    forall a | 0 <= a < |p| - 1 ensures t'[q[a]] == s[1..][a] {
      assert p[a + 1] != b;
      assert t'[q[a]] == t[p[a + 1]];
    }
  }

  /** Taking out the extent at position b divides the element count by it. */
  lemma ProductRemove(t: seq<nat>, b: nat)
    requires b < |t|
    ensures Product(t) == t[b] * Product(t[..b] + t[b + 1..])
  {
    assert t == t[..b] + t[b..];
    ProductAppend(t[..b], t[b..]);
    assert t[b..][1..] == t[b + 1..];
    ProductAppend(t[..b], t[b + 1..]);
    var x, y := Product(t[..b]), Product(t[b + 1..]);
    assert Product(t) == x * (t[b] * y);
    MulAssoc(x, y, t[b]);
    MulAssoc(t[b], y, x);
  }

  /** A full index of the source shape scatters to a full index of the
      permuted shape, and a full index of the permuted shape gathers to one of
      the source shape. */
  lemma ScatterInRange(u: seq<nat>, shape: seq<nat>, p: seq<nat>)
    requires |p| == |shape| && IsPermutation(p) && IsFullIndex(u, shape)
    ensures IsFullIndex(Scatter(u, p), PermuteShape(shape, p))
  {
    PermuteShapeAt(shape, p);
    PermutationOnto(p);
    var w, t := Scatter(u, p), PermuteShape(shape, p);
    forall b | 0 <= b < |p| ensures w[b] < t[b] {
      var a := IndexOf(p, b);
      assert w[p[a]] == u[a] && t[p[a]] == shape[a];
    }
  }

  lemma GatherInRange(w: seq<nat>, shape: seq<nat>, p: seq<nat>)
    requires |p| == |shape| && IsPermutation(p) && IsFullIndex(w, PermuteShape(shape, p))
    ensures IsFullIndex(Gather(w, p), shape)
  {
    PermuteShapeAt(shape, p);
  }
}
