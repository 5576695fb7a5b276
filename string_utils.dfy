/** The string helpers that transpose uses to read its pattern: trimming of
    white space at either end, and the check that a string holds only Latin
    letters. Both are stated by their character-level meaning. */
module StringUtils {

  /** The POSIX class [[:space:]] in the C locale: space, \t, \n, \v, \f, \r. */
  predicate IsSpace(c: char)
  {
    c == ' ' || c == '\t' || c == '\n' || c == '\U{000B}' || c == '\U{000C}' || c == '\r'
  }

  predicate AllSpace(s: string)
  {
    forall k :: 0 <= k < |s| ==> IsSpace(s[k])
  }

  /** A Latin letter: a-z or A-Z. */
  predicate IsLatin(c: char)
  {
    ('a' <= c <= 'z') || ('A' <= c <= 'Z')
  }

  /** ltrim: drops the longest white-space prefix. */
  function LTrim(s: string): (r: string)
    ensures |r| <= |s| && r == s[|s| - |r|..]
    ensures AllSpace(s[..|s| - |r|])
    ensures |r| > 0 ==> !IsSpace(r[0])
  {
    if |s| > 0 && IsSpace(s[0]) then
      var r := LTrim(s[1..]);
      assert s[1..][|s| - 1 - |r|..] == s[|s| - |r|..];
      assert forall k :: 1 <= k < |s| - |r| ==> s[k] == s[1..][..|s| - 1 - |r|][k - 1];
      r
    else
      s
  }

  /** rtrim: drops the longest white-space suffix. */
  function RTrim(s: string): (r: string)
    ensures |r| <= |s| && r == s[..|r|]
    ensures AllSpace(s[|r|..])
    ensures |r| > 0 ==> !IsSpace(r[|r| - 1])
  {
    if |s| > 0 && IsSpace(s[|s| - 1]) then
      var r := RTrim(s[..|s| - 1]);
      assert s[..|s| - 1][..|r|] == s[..|r|];
      assert forall k :: |r| <= k < |s| - 1 ==> s[k] == s[..|s| - 1][|r|..][k - |r|];
      r
    else
      s
  }

  /** trim: rtrim, then ltrim. Stripping the two ends in the other order
      gives the same string. */
  function Trim(s: string): (r: string)
    ensures r == RTrim(LTrim(s))
  {
    TrimEitherOrder(s);
    LTrim(RTrim(s))
  }

  /** ltrim drops exactly the white space before the first other character. */
  lemma LTrimAt(s: string, d: nat)
    requires d <= |s| && (forall k :: 0 <= k < d ==> IsSpace(s[k]))
    requires d < |s| ==> !IsSpace(s[d])
    ensures LTrim(s) == s[d..]
  {
    var n := LTrimFacts(s);
    FrontSpaceUnique(s, n, d);
  }

  /** rtrim drops exactly the white space after the last other character. */
  lemma RTrimAt(s: string, e: nat)
    requires e <= |s| && (forall k :: e <= k < |s| ==> IsSpace(s[k]))
    requires e > 0 ==> !IsSpace(s[e - 1])
    ensures RTrim(s) == s[..e]
  {
    var n := RTrimFacts(s);
    BackSpaceUnique(s, n, e);
  }

  /** The contract of ltrim, stated position by position. */
  lemma LTrimFacts(s: string) returns (n: nat)
    ensures n <= |s| && LTrim(s) == s[n..]
    ensures forall k :: 0 <= k < n ==> IsSpace(s[k])
    ensures n < |s| ==> !IsSpace(s[n])
  {
    n := |s| - |LTrim(s)|;
    forall k | 0 <= k < n ensures IsSpace(s[k]) { assert s[..n][k] == s[k]; }
    if n < |s| {
      assert LTrim(s)[0] == s[n];
    }
  }

  /** The contract of rtrim, stated position by position. */
  lemma RTrimFacts(s: string) returns (n: nat)
    ensures n <= |s| && RTrim(s) == s[..n]
    ensures forall k :: n <= k < |s| ==> IsSpace(s[k])
    ensures n > 0 ==> !IsSpace(s[n - 1])
  {
    n := |RTrim(s)|;
    forall k | n <= k < |s| ensures IsSpace(s[k]) { assert s[n..][k - n] == s[k]; }
    if n > 0 {
      assert RTrim(s)[n - 1] == s[n - 1];
    }
  }

  /** The length of the leading white space is unique. */
  lemma FrontSpaceUnique(s: string, n: nat, d: nat)
    requires n <= |s| && (forall k :: 0 <= k < n ==> IsSpace(s[k])) && (n < |s| ==> !IsSpace(s[n]))
    requires d <= |s| && (forall k :: 0 <= k < d ==> IsSpace(s[k])) && (d < |s| ==> !IsSpace(s[d]))
    ensures n == d
  {
  }

  /** The length of what remains before the trailing white space is unique. */
  lemma BackSpaceUnique(s: string, n: nat, e: nat)
    requires n <= |s| && (forall k :: n <= k < |s| ==> IsSpace(s[k])) && (n > 0 ==> !IsSpace(s[n - 1]))
    requires e <= |s| && (forall k :: e <= k < |s| ==> IsSpace(s[k])) && (e > 0 ==> !IsSpace(s[e - 1]))
    ensures n == e
  {
  }

  /** ltrim and rtrim commute: both orders keep the piece of s from its first
      to its last non-space character, or nothing if there is none. */
  lemma TrimEitherOrder(s: string)
    ensures LTrim(RTrim(s)) == RTrim(LTrim(s))
  {
    var e := |RTrim(s)|;
    var d := |s| - |LTrim(s)|;
    SpaceOutside(s, d, e);
    if e == 0 {
      BlankTrims(s, d);
    } else {
      var m := TrimMiddle(s, d, e);
      assert RTrim(s) == s[..e] && LTrim(s) == s[d..];
    }
  }

  /** With at least one non-space character, both orders keep s[d..e]. */
  lemma TrimMiddle(s: string, d: nat, e: nat) returns (m: string)
    requires 0 < e <= |s| && d <= |s|
    requires forall k :: e <= k < |s| ==> IsSpace(s[k])
    requires forall k :: 0 <= k < d ==> IsSpace(s[k])
    requires d < |s| ==> !IsSpace(s[d])
    requires !IsSpace(s[e - 1])
    ensures d < e && m == s[d..e]
    ensures LTrim(s[..e]) == m && RTrim(s[d..]) == m
  {
    m := s[d..e];
    LTrimAt(s[..e], d);
    RTrimAt(s[d..], e - d);
    assert s[..e][d..] == m && s[d..][..e - d] == m;
  }

  /** What ltrim drops in front and rtrim drops behind is white space. */
  lemma SpaceOutside(s: string, d: nat, e: nat)
    requires e == |RTrim(s)| && d == |s| - |LTrim(s)|
    ensures forall k :: e <= k < |s| ==> IsSpace(s[k])
    ensures forall k :: 0 <= k < d ==> IsSpace(s[k])
    ensures d < |s| ==> !IsSpace(s[d])
    ensures e > 0 ==> !IsSpace(s[e - 1])
  {
    assert RTrim(s) == s[..e] && AllSpace(s[e..]);
    assert LTrim(s) == s[d..] && AllSpace(s[..d]);
    forall k | e <= k < |s| ensures IsSpace(s[k]) { assert s[k] == s[e..][k - e]; }
    forall k | 0 <= k < d ensures IsSpace(s[k]) { assert s[k] == s[..d][k]; }
    if d < |s| {
      assert LTrim(s)[0] == s[d];
    }
    if e > 0 {
      assert RTrim(s)[e - 1] == s[e - 1];
    }
  }

  /** A string of white space only trims to nothing either way. */
  lemma BlankTrims(s: string, d: nat)
    requires RTrim(s) == [] && d == |s| - |LTrim(s)|
    requires forall k :: 0 <= k < |s| ==> IsSpace(s[k])
    ensures LTrim(s) == [] && RTrim(LTrim(s)) == []
  {
  }

  /** all_latin: no character outside a-z and A-Z (so true of the empty string). */
  function AllLatin(s: string): (r: bool)
    ensures r <==> forall k :: 0 <= k < |s| ==> IsLatin(s[k])
  {
    if |s| == 0 then true
    else if !IsLatin(s[0]) then false
    else
      var r := AllLatin(s[1..]);
      assert forall k :: 1 <= k < |s| ==> s[k] == s[1..][k - 1];
      r
  }

  /** The result of trim neither starts nor ends with white space. */
  lemma TrimNoOuterSpace(s: string)
    ensures |Trim(s)| > 0 ==> !IsSpace(Trim(s)[0]) && !IsSpace(Trim(s)[|Trim(s)| - 1])
  {
    var t := RTrim(s);
    var r := LTrim(t);
    if |r| > 0 {
      assert r[|r| - 1] == t[|t| - 1];
    }
  }

  /** trim keeps a contiguous piece of its argument: what it drops in front and
      behind is white space only. */
  lemma TrimIsInfix(s: string) returns (i: nat, j: nat)
    ensures i <= j <= |s| && Trim(s) == s[i..j]
    ensures AllSpace(s[..i]) && AllSpace(s[j..])
  {
    var t := RTrim(s);
    var r := LTrim(t);
    j := |t|;
    i := |t| - |r|;
    assert t == s[..j];
    assert r == s[..j][i..] == s[i..j];
    assert s[..i] == t[..i];
  }

  /** trim changes a string exactly when it starts or ends with white space. */
  lemma TrimIdentity(s: string)
    ensures Trim(s) == s <==> (|s| == 0 || (!IsSpace(s[0]) && !IsSpace(s[|s| - 1])))
  {
    TrimNoOuterSpace(s);
    if |s| > 0 && !IsSpace(s[0]) && !IsSpace(s[|s| - 1]) {
      assert RTrim(s) == s;
      assert LTrim(s) == s;
    }
  }

  lemma TrimIdempotent(s: string)
    ensures Trim(Trim(s)) == Trim(s)
  {
    TrimNoOuterSpace(s);
    TrimIdentity(Trim(s));
  }

  /** A Latin letter is not white space. */
  lemma NotSpace(c: char)
    requires IsLatin(c)
    ensures !IsSpace(c)
  {
  }

  /** A string of Latin letters has no white space to trim. */
  lemma LatinTrimmed(s: string)
    requires AllLatin(s)
    ensures Trim(s) == s
  {
    if |s| > 0 {
      assert IsLatin(s[0]) && IsLatin(s[|s| - 1]);
      NotSpace(s[0]);
      NotSpace(s[|s| - 1]);
    }
    TrimIdentity(s);
  }
}
