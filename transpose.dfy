/** transpose: parse a pattern "from->to" of axis labels, turn it into an axis
    permutation, and materialise a new array whose element at the permuted
    multi-index is the source element at the original one. */
module Transpose {
  import opened Results
  import opened Shapes
  import opened Permutations
  import opened StringUtils
  import opened NdArrays

  // ---------------------------------------------------------------------
  // Pattern parsing

  predicate IsArrowAt(p: string, i: nat)
  {
    i + 1 < |p| && p[i] == '-' && p[i + 1] == '>'
  }

  /** string::find("->") from position i on. */
  function FindArrowFrom(p: string, i: nat): (r: Option<nat>)
    requires i <= |p|
    ensures r.Some? ==> (i <= r.value && IsArrowAt(p, r.value) &&
                         forall k :: i <= k < r.value ==> !IsArrowAt(p, k))
    ensures r.None? <==> forall k :: i <= k < |p| ==> !IsArrowAt(p, k)
    decreases |p| - i
  {
    if i + 1 >= |p| then None
    else if IsArrowAt(p, i) then Some(i)
    else FindArrowFrom(p, i + 1)
  }

  /** The position of the first "->", if any. */
  function FindArrow(p: string): (r: Option<nat>)
    ensures r.Some? ==> IsArrowAt(p, r.value) && forall k :: 0 <= k < r.value ==> !IsArrowAt(p, k)
    ensures r.None? <==> forall k :: 0 <= k < |p| ==> !IsArrowAt(p, k)
  {
    FindArrowFrom(p, 0)
  }

  /** `from` is the trimmed text before the first "->", `to` the trimmed text
      after it; no separator is an error. */
  function SplitPattern(p: string): (r: Result<(string, string)>)
    ensures r.Failure? <==> forall k :: 0 <= k < |p| ==> !IsArrowAt(p, k)
    ensures r.Failure? ==> r.error == MissingSeparator
    ensures r.Success? ==> (FindArrow(p).Some? &&
      r.value == (Trim(p[..FindArrow(p).value]), Trim(p[FindArrow(p).value + 2..])))
  {
    match FindArrow(p)
    case None => Failure(MissingSeparator)
    case Some(f) => Success((Trim(p[..f]), Trim(p[f + 2..])))
  }

  // ---------------------------------------------------------------------
  // Pattern validation

  /** Every `from` label occurs somewhere in `to`. */
  predicate AllIn(from: string, to: string)
  {
    forall j :: 0 <= j < |from| ==> from[j] in to
  }

  predicate Distinct(s: string)
  {
    forall j1, j2 :: 0 <= j1 < j2 < |s| ==> s[j1] != s[j2]
  }

  /** The checks as written, in their order: equal label counts, a label per
      axis, Latin letters only, every `from` label present in `to`. */
  function ValidateAsWritten(from: string, to: string, dim: nat): (r: Outcome)
    ensures r.Pass? <==>
      |from| == |to| == dim && AllLatin(from) && AllLatin(to) && AllIn(from, to)
    ensures r == Fail(LabelCountMismatch) <==> |from| != |to|
    ensures r == Fail(RankMismatch) <==> |from| == |to| && |from| != dim
    ensures r == Fail(NonLatinLabel) <==> |from| == |to| == dim && !(AllLatin(from) && AllLatin(to))
    ensures r.Fail? ==> r.error in {LabelCountMismatch, RankMismatch, NonLatinLabel, UnknownLabel}
  {
    if |from| != |to| then Fail(LabelCountMismatch)
    else if |from| != dim then Fail(RankMismatch)
    else if !AllLatin(from) || !AllLatin(to) then Fail(NonLatinLabel)
    else if !AllIn(from, to) then Fail(UnknownLabel)
    else Pass
  }

  /** The corrected validation: the same checks, then no `from` label twice. */
  function Validate(from: string, to: string, dim: nat): (r: Outcome)
    ensures r.Pass? <==> ValidateAsWritten(from, to, dim).Pass? && Distinct(from)
    ensures ValidateAsWritten(from, to, dim).Fail? ==> r == ValidateAsWritten(from, to, dim)
    ensures r == Fail(RepeatedLabel) <==> ValidateAsWritten(from, to, dim).Pass? && !Distinct(from)
  {
    match ValidateAsWritten(from, to, dim)
    case Fail(e) => Fail(e)
    case Pass => if Distinct(from) then Pass else Fail(RepeatedLabel)
  }

  /** The nested search loop of the debug build: for each `from` label, scan
      `to` until it is found; stop at the first label that is not. */
  method LabelsFound(from: string, to: string) returns (found: bool)
    ensures found <==> AllIn(from, to)
  {
    var j := 0;
    while j < |from|
      invariant 0 <= j <= |from|
      invariant AllIn(from[..j], to)
    {
      var present := false;
      var k := 0;
      while k < |to|
        invariant 0 <= k <= |to|
        invariant !present ==> from[j] !in to[..k]
        invariant present ==> from[j] in to
      {
        if from[j] == to[k] {
          present := true;
          break;
        }
        k := k + 1;
      }
      if !present {
        assert to[..|to|] == to;
        return false;
      }
      assert forall j' :: 0 <= j' < j + 1 ==> from[..j + 1][j'] == from[j'];
      j := j + 1;
    }
    assert from[..|from|] == from;
    return true;
  }

  // ---------------------------------------------------------------------
  // The permutation

  /** The value index_map[c] ends with: the last position of c in s, or 0 when
      c does not occur (std::map::operator[] inserts a zero). */
  function LastIndex(s: string, c: char): (r: nat)
    ensures c in s ==> r < |s| && s[r] == c && forall k :: r < k < |s| ==> s[k] != c
    ensures c !in s ==> r == 0
  {
    if |s| == 0 then 0
    else if s[|s| - 1] == c then |s| - 1
    else
      var r := LastIndex(s[..|s| - 1], c);
      assert c in s ==> c in s[..|s| - 1] by {
        if c in s {
          var k :| 0 <= k < |s| && s[k] == c;
          assert s[..|s| - 1][k] == c;
        }
      }
      r
  }

  /** pattern[j] == index_map[from[j]]. */
  function PatternFor(from: string, to: string): (p: seq<nat>)
    ensures |p| == |from|
  {
    seq(|from|, j requires 0 <= j < |from| => LastIndex(to, from[j]))
  }

  /** The two loops that build index_map over `to` and then read it for each
      `from` label, inserting zero for a label that is missing. */
  method BuildPattern(from: string, to: string) returns (pattern: seq<nat>)
    requires |from| <= |to|
    ensures |pattern| == |to|
    ensures pattern[..|from|] == PatternFor(from, to)
    ensures forall j :: |from| <= j < |to| ==> pattern[j] == 0
  {
    var indexMap: map<char, nat> := map[];
    for i := 0 to |to|
      invariant forall c :: c in indexMap <==> c in to[..i]
      invariant forall c :: c in indexMap ==> indexMap[c] == LastIndex(to[..i], c)
    {
      assert to[..i + 1][..i] == to[..i];
      assert forall c :: c in to[..i + 1] <==> c in to[..i] || c == to[i];
      indexMap := indexMap[to[i] := i];
    }
    assert to[..|to|] == to;
    pattern := seq(|to|, _ => 0);
    for j := 0 to |from|
      invariant |pattern| == |to|
      invariant forall c :: c in to ==> c in indexMap
      invariant forall c :: c in indexMap ==> indexMap[c] == LastIndex(to, c)
      invariant forall j' :: 0 <= j' < j ==> pattern[j'] == LastIndex(to, from[j'])
      invariant forall j' :: j <= j' < |to| ==> pattern[j'] == 0
    {
      if from[j] !in indexMap {
        indexMap := indexMap[from[j] := 0];
      }
      pattern := pattern[j := indexMap[from[j]]];
    }
  }

  /** The pattern maps every `from` label to a position in `to` holding it. */
  lemma PatternLabels(from: string, to: string)
    requires AllIn(from, to)
    ensures forall j :: 0 <= j < |from| ==>
      (PatternFor(from, to)[j] < |to| && to[PatternFor(from, to)[j]] == from[j])
  {
  }

  /** Once validation has passed the pattern is a permutation of the axes:
      all labels present, as many in `from` as in `to`, none repeated. */
  lemma PatternIsPermutation(from: string, to: string, dim: nat)
    requires Validate(from, to, dim).Pass?
    ensures |PatternFor(from, to)| == dim && IsPermutation(PatternFor(from, to))
  {
    var p := PatternFor(from, to);
    PatternLabels(from, to);
    forall j1, j2 | 0 <= j1 < j2 < |p| ensures p[j1] != p[j2] {
      assert to[p[j1]] == from[j1] != from[j2] == to[p[j2]];
    }
  }

  /** With all labels present and equal counts, the pattern is a permutation
      exactly when no `from` label repeats. */
  lemma PatternPermutationIffDistinct(from: string, to: string)
    requires |from| == |to| && AllIn(from, to)
    ensures IsPermutation(PatternFor(from, to)) <==> Distinct(from)
  {
    var p := PatternFor(from, to);
    PatternLabels(from, to);
    if Distinct(from) {
      forall j1, j2 | 0 <= j1 < j2 < |p| ensures p[j1] != p[j2] {
        assert to[p[j1]] == from[j1] != from[j2] == to[p[j2]];
      }
    }
    if IsPermutation(p) {
      forall j1, j2 | 0 <= j1 < j2 < |from| ensures from[j1] != from[j2] {
        assert p[j1] != p[j2];
        assert p[j1] == LastIndex(to, from[j1]) && p[j2] == LastIndex(to, from[j2]);
      }
    }
  }

  /** Validation as written accepts "iij->ijk" on a rank-3 array. Its pattern
      [0, 0, 1] is no permutation: the result shape for (2, 2, 3) is (2, 3, 0),
      an empty buffer that the copy loop nevertheless writes twelve elements
      into. The corrected validation rejects the pattern. */
  lemma RepeatedLabelAccepted()
    ensures ValidateAsWritten("iij", "ijk", 3) == Pass
    ensures PatternFor("iij", "ijk") == [0, 0, 1] && !IsPermutation([0, 0, 1])
    ensures PermuteShape([2, 2, 3], [0, 0, 1]) == [2, 3, 0]
    ensures Product([2, 3, 0]) == 0 && Product([2, 2, 3]) == 12
    ensures Validate("iij", "ijk", 3) == Fail(RepeatedLabel)
  {
    assert AllIn("iij", "ijk") by {
      assert "ijk"[0] == 'i' && "ijk"[1] == 'j';
    }
    assert PatternFor("iij", "ijk") == [0, 0, 1] by {
      assert LastIndex("ijk", 'i') == 0 by { assert "ijk"[..2] == "ij"; assert "ij"[..1] == "i"; }
      assert LastIndex("ijk", 'j') == 1 by { assert "ijk"[..2] == "ij"; }
    }
    assert !Distinct("iij") by {
      assert "iij"[0] == "iij"[1];
    }
    assert [0, 0, 1][0] == [0, 0, 1][1];
    RepeatedLabelShape();
  }

  /** The shape loop on that pattern: axis 2 of the result is never set. */
  lemma RepeatedLabelShape()
    ensures PermuteShape([2, 2, 3], [0, 0, 1]) == [2, 3, 0]
    ensures Product([2, 3, 0]) == 0 && Product([2, 2, 3]) == 12
  {
    var s: seq<nat> := [2, 2, 3];
    assert s[1..] == [2, 3] && s[2..] == [3] && s[3..] == [];
    assert Product(s[2..]) == 3 && Product(s[1..]) == 6;
    var t: seq<nat> := [2, 3, 0];
    assert t[1..] == [3, 0] && t[2..] == [0] && t[3..] == [];
  }

  /** The whole pre-copy path of transpose: split, validate, build the pattern. */
  function TransposeCheck(p: string, dim: nat): (r: Result<seq<nat>>)
    ensures r.Success? ==> |r.value| == dim && IsPermutation(r.value)
    ensures r == Failure(MissingSeparator) <==> SplitPattern(p).Failure?
    ensures r.Success? <==> (SplitPattern(p).Success? &&
                             Validate(SplitPattern(p).value.0, SplitPattern(p).value.1, dim).Pass?)
  {
    match SplitPattern(p)
    case Failure(e) => Failure(e)
    case Success(parts) =>
      match Validate(parts.0, parts.1, dim)
      case Fail(e) => Failure(e)
      case Pass =>
        PatternIsPermutation(parts.0, parts.1, dim);
        Success(PatternFor(parts.0, parts.1))
  }

  /** Reversing a valid pattern: "to->from" passes the corrected checks too,
      and its permutation is the inverse of the one "from->to" yields. */
  lemma ReversedPattern(from: string, to: string, dim: nat)
    requires Validate(from, to, dim).Pass?
    ensures Validate(to, from, dim).Pass?
    ensures IsPermutation(PatternFor(from, to)) &&
            PatternFor(to, from) == Inverse(PatternFor(from, to))
  {
    var p := PatternFor(from, to);
    PatternIsPermutation(from, to, dim);
    PatternLabels(from, to);
    var q := Inverse(p);
    ReversedLabels(from, to, p, q);
    ReversedDistinct(from, to, q);
    ReversedIndices(from, to, q);
  }

  /** If to[p[j]] == from[j] for a permutation p, then from[q[b]] == to[b]
      for its inverse q. */
  lemma ReversedLabels(from: string, to: string, p: seq<nat>, q: seq<nat>)
    requires |from| == |to| == |p| == |q|
    requires forall j :: 0 <= j < |p| ==> p[j] < |to| && to[p[j]] == from[j]
    requires forall b :: 0 <= b < |q| ==> q[b] < |p| && p[q[b]] == b
    ensures forall b :: 0 <= b < |to| ==> q[b] < |from| && to[b] == from[q[b]]
  {
    forall b | 0 <= b < |to| ensures to[b] == from[q[b]] {
      assert to[p[q[b]]] == from[q[b]];
    }
  }

  /** The reversed labels are all present and, being images of distinct
      labels under a permutation, distinct. */
  lemma ReversedDistinct(from: string, to: string, q: seq<nat>)
    requires |from| == |to| == |q| && Distinct(from) && IsPermutation(q)
    requires forall b :: 0 <= b < |to| ==> q[b] < |from| && to[b] == from[q[b]]
    ensures AllIn(to, from) && Distinct(to)
  {
    forall b1, b2 | 0 <= b1 < b2 < |to| ensures to[b1] != to[b2] {
      assert q[b1] != q[b2];
      if q[b1] < q[b2] {
        assert from[q[b1]] != from[q[b2]];
      } else {
        assert from[q[b2]] != from[q[b1]];
      }
    }
  }

  /** Where from's labels are distinct, index_map over from sends to[b] to q[b]. */
  lemma ReversedIndices(from: string, to: string, q: seq<nat>)
    requires |from| == |to| == |q| && Distinct(from)
    requires forall b :: 0 <= b < |to| ==> q[b] < |from| && to[b] == from[q[b]]
    ensures PatternFor(to, from) == q
  {
    forall b | 0 <= b < |to| ensures PatternFor(to, from)[b] == q[b] {
      var r := LastIndex(from, to[b]);
      assert from[q[b]] == to[b];
      assert from[r] == to[b];
    }
  }

  /** The first arrow is at i when there is one at i and none before it. */
  lemma FirstArrowAt(pat: string, i: nat)
    requires IsArrowAt(pat, i) && forall k :: 0 <= k < i ==> !IsArrowAt(pat, k)
    ensures FindArrow(pat) == Some(i)
  {
    assert FindArrow(pat).Some?;
  }

  /** "x->y" with Latin labels x and y splits back into x and y. */
  lemma JoinedSplits(x: string, y: string)
    requires AllLatin(x) && AllLatin(y)
    ensures SplitPattern(x + "->" + y) == Success((x, y))
  {
    var pat := x + "->" + y;
    NoArrowInLabels(x, pat);
    FirstArrowAt(pat, |x|);
    assert pat[..|x|] == x && pat[|x| + 2..] == y;
    LatinTrimmed(x);
    LatinTrimmed(y);
  }

  /** Latin labels at the front of a pattern contain no "->". */
  lemma NoArrowInLabels(x: string, pat: string)
    requires AllLatin(x) && |x| + 2 <= |pat| && pat[..|x|] == x
    requires pat[|x|] == '-' && pat[|x| + 1] == '>'
    ensures IsArrowAt(pat, |x|) && forall k :: 0 <= k < |x| ==> !IsArrowAt(pat, k)
  {
    forall k | 0 <= k < |x| ensures !IsArrowAt(pat, k) {
      assert pat[k] == pat[..|x|][k] == x[k];
      assert IsLatin(x[k]);
    }
  }

  /** transpose by the reversed pattern undoes transpose: when pattern `pat`
      splits into (from, to) and passes the checks with permutation p, the
      pattern "to->from" passes them with Inverse(p), which TransposeRoundTrip
      shows restores shape and contents. */
  lemma ReversedPatternCheck(pat: string, dim: nat, from: string, to: string)
    requires SplitPattern(pat) == Success((from, to)) && TransposeCheck(pat, dim).Success?
    ensures IsPermutation(TransposeCheck(pat, dim).value)
    ensures TransposeCheck(to + "->" + from, dim) == Success(Inverse(TransposeCheck(pat, dim).value))
  {
    ReversedPattern(from, to, dim);
    JoinedSplits(to, from);
  }

  // ---------------------------------------------------------------------
  // Element placement

  /** std::accumulate with std::plus. */
  function Sum(s: seq<nat>): nat
  {
    if |s| == 0 then 0 else s[0] + Sum(s[1..])
  }

  /** The transform-then-accumulate in transpose_impl is the inner product. */
  lemma {:induction false} SumOfProducts(x: seq<nat>, y: seq<nat>)
    requires |x| == |y|
    ensures Sum(Products(x, y)) == Dot(x, y)
  {
    if |x| > 0 {
      assert Products(x, y)[1..] == Products(x[1..], y[1..]);
      SumOfProducts(x[1..], y[1..]);
    }
  }

  /** Where transpose_impl writes source element i: decompose i over the
      source shape, move digit a to axis pattern[a], and take the offset of
      that multi-index in the permuted shape. */
  function Dest(shape: seq<nat>, p: seq<nat>, i: nat): (d: nat)
    requires |p| == |shape| && IsPermutation(p) && i < Product(shape)
    ensures d < Product(shape)
  {
    ProductPositive(shape);
    var u := Unravel(shape, i);
    ScatterInRange(u, shape, p);
    PermuteShapeAt(shape, p);
    FullIndexBelowSize(PermuteShape(shape, p), Scatter(u, p));
    Dot(Scatter(u, p), StridesFor(PermuteShape(shape, p)))
  }

  /** Which source element lands at destination j: the reverse of Dest. */
  function Source(shape: seq<nat>, p: seq<nat>, j: nat): (s: nat)
    requires |p| == |shape| && IsPermutation(p) && j < Product(shape)
    ensures s < Product(shape)
  {
    PermuteShapeAt(shape, p);
    ProductPositive(PermuteShape(shape, p));
    var w := Unravel(PermuteShape(shape, p), j);
    GatherInRange(w, shape, p);
    FullIndexBelowSize(shape, Gather(w, p));
    Dot(Gather(w, p), StridesFor(shape))
  }

  lemma DestThenSource(shape: seq<nat>, p: seq<nat>, i: nat)
    requires |p| == |shape| && IsPermutation(p) && i < Product(shape)
    ensures Source(shape, p, Dest(shape, p, i)) == i
  {
    var t := PermuteShape(shape, p);
    ProductPositive(shape);
    PermuteShapeAt(shape, p);
    ProductPositive(t);
    var u := Unravel(shape, i);
    var w := Scatter(u, p);
    ScatterInRange(u, shape, p);
    UnravelRavel(t, w);
    GatherScatter(u, p);
    RavelUnravel(shape, i);
  }

  lemma SourceThenDest(shape: seq<nat>, p: seq<nat>, j: nat)
    requires |p| == |shape| && IsPermutation(p) && j < Product(shape)
    ensures Dest(shape, p, Source(shape, p, j)) == j
  {
    var t := PermuteShape(shape, p);
    ProductPositive(shape);
    PermuteShapeAt(shape, p);
    ProductPositive(t);
    var w := Unravel(t, j);
    var u := Gather(w, p);
    GatherInRange(w, shape, p);
    UnravelRavel(shape, u);
    ScatterGather(w, p);
    RavelUnravel(t, j);
  }

  /** Dest is a bijection of 0 .. size-1 with inverse Source: every
      destination slot is written exactly once. */
  lemma DestBijective(shape: seq<nat>, p: seq<nat>)
    requires |p| == |shape| && IsPermutation(p)
    ensures forall i :: 0 <= i < Product(shape) ==> Source(shape, p, Dest(shape, p, i)) == i
    ensures forall j :: 0 <= j < Product(shape) ==> Dest(shape, p, Source(shape, p, j)) == j
    ensures forall i1, i2 ::
      (0 <= i1 < Product(shape) && 0 <= i2 < Product(shape) &&
       Dest(shape, p, i1) == Dest(shape, p, i2)) ==> i1 == i2
  {
    forall i | 0 <= i < Product(shape) ensures Source(shape, p, Dest(shape, p, i)) == i {
      DestThenSource(shape, p, i);
    }
    forall j | 0 <= j < Product(shape) ensures Dest(shape, p, Source(shape, p, j)) == j {
      SourceThenDest(shape, p, j);
    }
  }

  /** The transposed contents: destination j holds source element Source(j). */
  function Transposed(src: seq<int>, shape: seq<nat>, p: seq<nat>): (r: seq<int>)
    requires |p| == |shape| && IsPermutation(p) && |src| == Product(shape)
    ensures |r| == |src|
  {
    seq(|src|, j requires 0 <= j < |src| => src[Source(shape, p, j)])
  }

  /** Transposing by the inverse pattern reads each element from where the
      forward transpose put it. */
  lemma SourceOfInverse(shape: seq<nat>, p: seq<nat>, j: nat)
    requires |p| == |shape| && IsPermutation(p) && j < Product(shape)
    ensures Product(PermuteShape(shape, p)) == Product(shape)
    ensures Source(PermuteShape(shape, p), Inverse(p), j) == Dest(shape, p, j)
  {
    var t, q := PermuteShape(shape, p), Inverse(p);
    PermuteShapeAt(shape, p);
    PermuteShapeInverse(shape, p);
    ProductPositive(shape);
    ScatterIsGatherInverse(Unravel(shape, j), p);
  }

  /** Transposing back with the inverse pattern restores shape and contents. */
  lemma TransposeRoundTrip(src: seq<int>, shape: seq<nat>, p: seq<nat>)
    requires |p| == |shape| && IsPermutation(p) && |src| == Product(shape)
    ensures PermuteShape(PermuteShape(shape, p), Inverse(p)) == shape
    ensures Product(PermuteShape(shape, p)) == |src|
    ensures Transposed(Transposed(src, shape, p), PermuteShape(shape, p), Inverse(p)) == src
  {
    PermuteShapeInverse(shape, p);
    PermuteShapeAt(shape, p);
    forall j | 0 <= j < |src|
      ensures Transposed(Transposed(src, shape, p), PermuteShape(shape, p), Inverse(p))[j] == src[j]
    {
      TransposeRoundTripAt(src, shape, p, j);
    }
  }

  lemma TransposeRoundTripAt(src: seq<int>, shape: seq<nat>, p: seq<nat>, j: nat)
    requires |p| == |shape| && IsPermutation(p) && |src| == Product(shape) && j < |src|
    ensures Product(PermuteShape(shape, p)) == |src|
    ensures Transposed(Transposed(src, shape, p), PermuteShape(shape, p), Inverse(p))[j] == src[j]
  {
    SourceOfInverse(shape, p, j);
    DestThenSource(shape, p, j);
  }

  /** Element placement: source element i sits at Dest(i) of the result. */
  lemma TransposedPlacement(src: seq<int>, shape: seq<nat>, p: seq<nat>)
    requires |p| == |shape| && IsPermutation(p) && |src| == Product(shape)
    ensures forall i :: 0 <= i < |src| ==> Transposed(src, shape, p)[Dest(shape, p, i)] == src[i]
  {
    DestBijective(shape, p);
  }

  /** In multi-index terms: the result at the permuted index idx' (with
      idx'[p[a]] == idx[a]) is the source at idx. */
  lemma TransposedAtIndex(src: seq<int>, shape: seq<nat>, p: seq<nat>, idx: seq<nat>)
    requires |p| == |shape| && IsPermutation(p) && |src| == Product(shape)
    requires IsFullIndex(idx, shape)
    ensures Dot(idx, StridesFor(shape)) < |src|
    ensures Dot(Scatter(idx, p), StridesFor(PermuteShape(shape, p))) < |src|
    ensures Transposed(src, shape, p)[Dot(Scatter(idx, p), StridesFor(PermuteShape(shape, p)))] ==
      src[Dot(idx, StridesFor(shape))]
  {
    var i := Dot(idx, StridesFor(shape));
    FullIndexBelowSize(shape, idx);
    ProductPositive(shape);
    UnravelRavel(shape, idx);
    assert Unravel(shape, i) == idx;
    var d := Dest(shape, p, i);
    assert d == Dot(Scatter(idx, p), StridesFor(PermuteShape(shape, p)));
    DestThenSource(shape, p, i);
    assert Transposed(src, shape, p)[d] == src[Source(shape, p, d)];
  }

  // ---------------------------------------------------------------------
  // transpose_impl

  /** Dest and Source as tables over 0 .. size-1. */
  function DestMap(shape: seq<nat>, p: seq<nat>): (dm: seq<nat>)
    requires |p| == |shape| && IsPermutation(p)
    ensures |dm| == Product(shape) && forall k :: 0 <= k < |dm| ==> dm[k] < |dm|
  {
    seq(Product(shape), k requires 0 <= k < Product(shape) => Dest(shape, p, k))
  }

  function SourceMap(shape: seq<nat>, p: seq<nat>): (sm: seq<nat>)
    requires |p| == |shape| && IsPermutation(p)
    ensures |sm| == Product(shape) && forall d :: 0 <= d < |sm| ==> sm[d] < |sm|
  {
    seq(Product(shape), d requires 0 <= d < Product(shape) => Source(shape, p, d))
  }

  /** The buffer of the copy loop after its first i steps: zeros, with src[k]
      stored at slot dm[k] for every k < i. */
  function Written(src: seq<int>, dm: seq<nat>, i: nat): (w: seq<int>)
    requires |dm| == |src| && i <= |src| && forall k :: 0 <= k < |dm| ==> dm[k] < |src|
    ensures |w| == |src|
  {
    if i == 0 then seq(|src|, _ => 0) else Written(src, dm, i - 1)[dm[i - 1] := src[i - 1]]
  }

  /** When slot map dm and source map sm are mutually inverse, each slot is
      written once: slot d holds its source element once the loop has passed
      sm[d], and its initial zero before. */
  lemma {:induction false} WrittenAt(src: seq<int>, dm: seq<nat>, sm: seq<nat>, i: nat)
    requires |dm| == |src| == |sm| && i <= |src|
    requires forall k :: 0 <= k < |dm| ==> dm[k] < |src| && sm[dm[k]] == k
    requires forall d :: 0 <= d < |sm| ==> sm[d] < |src| && dm[sm[d]] == d
    ensures forall d :: 0 <= d < |src| ==> Written(src, dm, i)[d] == if sm[d] < i then src[sm[d]] else 0
  {
    if i > 0 {
      WrittenAt(src, dm, sm, i - 1);
      forall d | 0 <= d < |src|
        ensures Written(src, dm, i)[d] == if sm[d] < i then src[sm[d]] else 0
      {
        if d != dm[i - 1] {
          assert sm[d] != i - 1;
        }
      }
    }
  }

  /** Storing every source element at its Dest gives the transposed contents. */
  lemma WrittenIsTransposed(src: seq<int>, shape: seq<nat>, p: seq<nat>)
    requires |p| == |shape| && IsPermutation(p) && |src| == Product(shape)
    ensures Written(src, DestMap(shape, p), |src|) == Transposed(src, shape, p)
  {
    var dm, sm := DestMap(shape, p), SourceMap(shape, p);
    DestBijective(shape, p);
    WrittenAt(src, dm, sm, |src|);
  }

  /** The first loop of transpose_impl: shape'[pattern[a]] = shape[a]. */
  method PermutedShape(shape: seq<nat>, pattern: seq<nat>) returns (t: seq<nat>)
    requires |pattern| == |shape| && forall a :: 0 <= a < |pattern| ==> pattern[a] < |pattern|
    ensures t == PermuteShape(shape, pattern)
  {
    t := seq(|shape|, _ => 0);
    for a := 0 to |shape|
      invariant t == PermuteShapeUpTo(shape, pattern, a)
    {
      t := t[pattern[a] := shape[a]];
    }
  }

  /** One step of the digit loop: the last digit of a decomposition over
      shape[..m] is the remainder, the rest decomposes the quotient. */
  lemma UnravelStep(shape: seq<nat>, m: nat, res: nat)
    requires 0 < m <= |shape| && Positive(shape)
    ensures Unravel(shape[..m], res) ==
      Unravel(shape[..m - 1], res / shape[m - 1]) + [res % shape[m - 1]]
  {
    assert shape[..m][..m - 1] == shape[..m - 1];
  }

  /** What the digit loop knows after handling the axes from m on: the digits
      before m are those of the remaining quotient res. */
  lemma UnravelDigit(shape: seq<nat>, i: nat, m: nat, res: nat)
    requires 0 < m <= |shape| && Positive(shape)
    requires Unravel(shape, i)[..m] == Unravel(shape[..m], res)
    ensures Unravel(shape, i)[m - 1] == res % shape[m - 1]
    ensures Unravel(shape, i)[..m - 1] == Unravel(shape[..m - 1], res / shape[m - 1])
  {
    var u := Unravel(shape, i);
    UnravelStep(shape, m, res);
    assert u[..m][m - 1] == u[m - 1];
    assert u[..m][..m - 1] == u[..m - 1];
  }

  /** std::transform with std::multiplies: the elementwise products. */
  function Products(x: seq<nat>, y: seq<nat>): (z: seq<nat>)
    requires |x| == |y|
    ensures |z| == |x|
  {
    seq(|x|, a requires 0 <= a < |x| => x[a] * y[a])
  }

  /** The digit loop of transpose_impl for source element i: it writes digit
      a of i's decomposition into indices[pattern[a]], last axis first, and
      ends with the scattered multi-index. */
  method ScatterDigits(shape: seq<nat>, pattern: seq<nat>, i: nat, indices: seq<nat>)
    returns (out: seq<nat>)
    requires |pattern| == |shape| == |indices| && IsPermutation(pattern)
    requires Positive(shape)
    ensures out == Scatter(Unravel(shape, i), pattern)
  {
    var dim := |shape|;
    ghost var u := Unravel(shape, i);
    assert shape[..dim] == shape && u[..dim] == u;
    out := indices;
    var res := i;
    // m == dim - ind: the axes m .. dim-1 have been handled.
    var m := dim;
    while m > 0
      invariant 0 <= m <= dim && |out| == dim
      invariant u[..m] == Unravel(shape[..m], res)
      invariant forall c :: m <= c < dim ==> out[pattern[c]] == u[c]
    {
      UnravelDigit(shape, i, m, res);
      out := out[pattern[m - 1] := res % shape[m - 1]];
      res := res / shape[m - 1];
      m := m - 1;
    }
    ScatterUnique(out, u, pattern);
  }

  /** The destination offset of source element i, computed as transpose_impl
      does: the digit loop, then the products with the result's strides
      (written back into indices), then their sum. */
  method DestinationOf(shape: seq<nat>, pattern: seq<nat>, strides: seq<nat>, i: nat, indices: seq<nat>)
    returns (out: seq<nat>, dst: nat)
    requires |pattern| == |shape| == |indices| && IsPermutation(pattern)
    requires i < Product(shape) && strides == StridesFor(PermuteShape(shape, pattern))
    ensures |out| == |shape| && dst == Dest(shape, pattern, i)
  {
    ProductPositive(shape);
    out := ScatterDigits(shape, pattern, i, indices);
    SumOfProducts(out, strides);
    assert Dot(out, strides) == Dest(shape, pattern, i);
    out := Products(out, strides);
    dst := Sum(out);
  }

  /** One step of the copy loop: the destination offset of source element i,
      then the element, read at from[off + i], stored there. */
  method CopyElement(buf: array<int>, from: array<int>, off: nat, shape: seq<nat>, pattern: seq<nat>,
                     strides: seq<nat>, i: nat, indices: seq<nat>, ghost src: seq<int>)
    returns (indices': seq<nat>)
    requires |pattern| == |shape| == |indices| && IsPermutation(pattern)
    requires strides == StridesFor(PermuteShape(shape, pattern))
    requires buf != from && i < |src| == Product(shape) && off + |src| <= from.Length
    requires from[off..off + |src|] == src
    requires buf[..] == Written(src, DestMap(shape, pattern), i)
    modifies buf
    ensures |indices'| == |shape|
    ensures buf[..] == Written(src, DestMap(shape, pattern), i + 1)
  {
    var dst;
    indices', dst := DestinationOf(shape, pattern, strides, i, indices);
    assert dst == DestMap(shape, pattern)[i];
    assert from[off + i] == src[i];
    buf[dst] := from[off + i];
  }

  /** transpose_impl: the permuted shape, then every source element copied to
      its destination offset in a fresh zero-filled array of that shape. */
  method TransposeImpl(source: NdArray, pattern: seq<nat>) returns (result: NdArray)
    requires source.Valid() && |pattern| == source.Dim() && IsPermutation(pattern)
    ensures fresh(result) && fresh(result.data) && result.Valid() && result.offset == 0
    ensures result.shape == PermuteShape(source.shape, pattern)
    ensures result.size == source.size
    ensures result.Contents() == Transposed(source.Contents(), source.shape, pattern)
  {
    ghost var src := source.Contents();
    var shape := PermutedShape(source.shape, pattern);
    PermuteShapeAt(source.shape, pattern);
    assert Product(shape) == |src|;
    result := new NdArray(shape);
    var buf := result.data;
    assert buf[..] == result.Contents() == seq(|src|, _ => 0);
    CopyElements(buf, source.data, source.offset, source.shape, pattern, result.strides, src);
    WrittenIsTransposed(src, source.shape, pattern);
    assert buf[..] == result.Contents();
  }

  /** The copy loop of transpose_impl: source element i, read at from[off + i],
      goes to its destination offset in the zero-filled buffer buf. */
  method CopyElements(buf: array<int>, from: array<int>, off: nat, shape: seq<nat>, pattern: seq<nat>,
                      strides: seq<nat>, ghost src: seq<int>)
    requires |pattern| == |shape| && IsPermutation(pattern) && strides == StridesFor(PermuteShape(shape, pattern))
    requires buf != from && |src| == Product(shape) && off + |src| <= from.Length && from[off..off + |src|] == src
    requires buf[..] == seq(|src|, _ => 0)
    modifies buf
    ensures buf[..] == Written(src, DestMap(shape, pattern), |src|)
  {
    var n := Product(shape);
    var indices: seq<nat> := seq(|shape|, _ => 0);
    for i := 0 to n
      invariant |indices| == |shape|
      invariant buf[..] == Written(src, DestMap(shape, pattern), i)
    {
      indices := CopyElement(buf, from, off, shape, pattern, strides, i, indices, src);
    }
  }

  /** The checks of transpose in their order, then the two pattern loops. */
  method ParsePattern(p: string, dim: nat) returns (r: Result<seq<nat>>)
    ensures r == TransposeCheck(p, dim)
  {
    var parts := FindArrow(p);
    if parts.None? {
      return Failure(MissingSeparator);
    }
    var f := parts.value;
    var from, to := Trim(p[..f]), Trim(p[f + 2..]);
    assert SplitPattern(p) == Success((from, to));
    ghost var check := ValidateAsWritten(from, to, dim);
    if |from| != |to| {
      assert check == Fail(LabelCountMismatch);
      return Failure(LabelCountMismatch);
    }
    if |from| != dim {
      assert check == Fail(RankMismatch);
      return Failure(RankMismatch);
    }
    if !AllLatin(from) || !AllLatin(to) {
      assert check == Fail(NonLatinLabel);
      return Failure(NonLatinLabel);
    }
    var found := LabelsFound(from, to);
    if !found {
      assert check == Fail(UnknownLabel);
      return Failure(UnknownLabel);
    }
    assert check == Pass;
    if !Distinct(from) {
      assert Validate(from, to, dim) == Fail(RepeatedLabel);
      return Failure(RepeatedLabel);
    }
    assert Validate(from, to, dim) == Pass;
    var pattern := BuildPattern(from, to);
    assert pattern == pattern[..|from|];
    return Success(pattern);
  }

  /** transpose(array, pattern): parse and check the pattern, then
      transpose_impl with the permutation it yields. */
  method Transpose(source: NdArray, p: string) returns (r: Result<NdArray>)
    requires source.Valid()
    ensures r.Success? ==> fresh(r.value) && fresh(r.value.data) && r.value.Valid()
    ensures r.Success? ==> r.value.offset == 0 && r.value.size == source.size
    ensures var check := TransposeCheck(p, source.Dim());
      (r.Failure? <==> check.Failure?) &&
      (r.Failure? ==> r.error == check.error) &&
      (r.Success? ==> r.value.shape == PermuteShape(source.shape, check.value) &&
                      r.value.Contents() == Transposed(source.Contents(), source.shape, check.value))
  {
    var pattern := ParsePattern(p, source.Dim());
    if pattern.Failure? {
      return Failure(pattern.error);
    }
    var t := TransposeImpl(source, pattern.value);
    return Success(t);
  }
}
