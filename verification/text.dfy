/** Character-level string operations the contact form relies on: JavaScript's
    `String.prototype.trim` and the regex class `\s`, which share one notion of
    whitespace. */
module Text {

  /** ECMAScript WhiteSpace and LineTerminator code points: exactly what `trim`
      strips from both ends and what the regex class `\s` matches. */
  predicate IsWhitespace(c: char) {
    var n := c as int;
    || n == 0x09 || n == 0x0A || n == 0x0B || n == 0x0C || n == 0x0D
    || n == 0x20 || n == 0xA0 || n == 0x1680
    || (0x2000 <= n <= 0x200A)
    || n == 0x2028 || n == 0x2029 || n == 0x202F || n == 0x205F
    || n == 0x3000 || n == 0xFEFF
  }

  predicate NoWhitespace(s: string) {
    forall k :: 0 <= k < |s| ==> !IsWhitespace(s[k])
  }

  predicate AllWhitespace(s: string) {
    forall k :: 0 <= k < |s| ==> IsWhitespace(s[k])
  }

  /** `r` is what remains of `s` once its leading and trailing whitespace is cut:
      a slice `s[i..j]` with only whitespace before `i` and from `j` on, that
      neither starts nor ends with whitespace. */
  ghost predicate IsTrimOf(r: string, s: string) {
    exists i, j :: 0 <= i <= j <= |s| && r == s[i..j]
      && (forall k :: 0 <= k < i ==> IsWhitespace(s[k]))
      && (forall k :: j <= k < |s| ==> IsWhitespace(s[k]))
      && (i < j ==> !IsWhitespace(s[i]) && !IsWhitespace(s[j - 1]))
  }

  /** Leading whitespace removed. */
  function TrimStart(s: string): (r: string)
    ensures |r| <= |s| && r == s[|s| - |r|..]
    ensures forall k :: 0 <= k < |s| - |r| ==> IsWhitespace(s[k])
    ensures r == [] || !IsWhitespace(r[0])
    decreases |s|
  {
    if |s| > 0 && IsWhitespace(s[0]) then TrimStart(s[1..]) else s
  }

  /** Trailing whitespace removed. */
  function TrimEnd(s: string): (r: string)
    ensures |r| <= |s| && r == s[..|r|]
    ensures forall k :: |r| <= k < |s| ==> IsWhitespace(s[k])
    ensures r == [] || !IsWhitespace(r[|r| - 1])
    decreases |s|
  {
    if |s| > 0 && IsWhitespace(s[|s| - 1]) then TrimEnd(s[..|s| - 1]) else s
  }

  /** `String.prototype.trim`. */
  function Trim(s: string): (r: string)
    ensures IsTrimOf(r, s)
  {
    TrimStartThenEnd(s);
    TrimEnd(TrimStart(s))
  }

  /** Cutting the leading, then the trailing whitespace, leaves a trim of `s`. */
  lemma TrimStartThenEnd(s: string)
    ensures IsTrimOf(TrimEnd(TrimStart(s)), s)
  {
    var t := TrimStart(s);
    var r := TrimEnd(t);
    var i := |s| - |t|;
    var j := i + |r|;
    assert r == s[i..j];
    assert forall k :: 0 <= k < i ==> IsWhitespace(s[k]);
    assert forall k :: j <= k < |s| ==> IsWhitespace(s[k]) by {
      forall k | j <= k < |s| ensures IsWhitespace(s[k]) {
        assert s[k] == t[k - i];
      }
    }
    assert i < j ==> s[i] == r[0] && s[j - 1] == r[|r| - 1];
  }

  /** `s.replace(/\s/g, '')`: every whitespace character deleted. */
  function RemoveWhitespace(s: string): (r: string)
    ensures NoWhitespace(r)
    ensures |r| <= |s|
    ensures forall c {:trigger multiset(r)[c]} :: !IsWhitespace(c) ==> multiset(r)[c] == multiset(s)[c]
    ensures forall c {:trigger multiset(r)[c]} :: IsWhitespace(c) ==> multiset(r)[c] == 0
  {
    if |s| == 0 then []
    else
      assert s == [s[0]] + s[1..];
      if IsWhitespace(s[0]) then RemoveWhitespace(s[1..])
      else [s[0]] + RemoveWhitespace(s[1..])
  }

  /** A string that trims to nothing is all whitespace, and conversely. */
  lemma TrimEmptyIff(s: string)
    ensures Trim(s) == [] <==> AllWhitespace(s)
  {
    var r := Trim(s);
    var i, j :| 0 <= i <= j <= |s| && r == s[i..j]
      && (forall k :: 0 <= k < i ==> IsWhitespace(s[k]))
      && (forall k :: j <= k < |s| ==> IsWhitespace(s[k]))
      && (i < j ==> !IsWhitespace(s[i]) && !IsWhitespace(s[j - 1]));
  }

  /** There is only one way to trim a string: `Trim` is determined by `IsTrimOf`. */
  lemma TrimUnique(r1: string, r2: string, s: string)
    requires IsTrimOf(r1, s) && IsTrimOf(r2, s)
    ensures r1 == r2
  {
    var i1, j1 :| 0 <= i1 <= j1 <= |s| && r1 == s[i1..j1]
      && (forall k :: 0 <= k < i1 ==> IsWhitespace(s[k]))
      && (forall k :: j1 <= k < |s| ==> IsWhitespace(s[k]))
      && (i1 < j1 ==> !IsWhitespace(s[i1]) && !IsWhitespace(s[j1 - 1]));
    var i2, j2 :| 0 <= i2 <= j2 <= |s| && r2 == s[i2..j2]
      && (forall k :: 0 <= k < i2 ==> IsWhitespace(s[k]))
      && (forall k :: j2 <= k < |s| ==> IsWhitespace(s[k]))
      && (i2 < j2 ==> !IsWhitespace(s[i2]) && !IsWhitespace(s[j2 - 1]));
  }

  /** Trimming twice changes nothing beyond trimming once. */
  lemma TrimIdempotent(s: string)
    ensures Trim(Trim(s)) == Trim(s)
  {
    var r := Trim(s);
    assert r == r[0..|r|] && r[..0] == [] && r[|r|..] == [];
    assert IsTrimOf(r, r);
    TrimUnique(Trim(r), r, r);
  }

  /** A value that neither starts nor ends with whitespace is its own trim. */
  lemma TrimNoop(s: string)
    requires s != [] && !IsWhitespace(s[0]) && !IsWhitespace(s[|s| - 1])
    ensures Trim(s) == s
  {
    assert s == s[0..|s|] && s[..0] == [] && s[|s|..] == [];
    assert IsTrimOf(s, s);
    TrimUnique(Trim(s), s, s);
  }

  /** Stripping whitespace commutes with concatenation, so it keeps the order of
      the characters it keeps. */
  lemma {:induction false} RemoveWhitespaceConcat(a: string, b: string)
    ensures RemoveWhitespace(a + b) == RemoveWhitespace(a) + RemoveWhitespace(b)
    decreases |a|
  {
    if |a| == 0 {
      assert a + b == b;
    } else {
      assert (a + b)[1..] == a[1..] + b;
      assert (a + b)[0] == a[0];
      RemoveWhitespaceConcat(a[1..], b);
    }
  }

  /** A string without whitespace is left as it is. */
  lemma {:induction false} RemoveWhitespaceNoop(s: string)
    requires NoWhitespace(s)
    ensures RemoveWhitespace(s) == s
    decreases |s|
  {
    if |s| > 0 {
      RemoveWhitespaceNoop(s[1..]);
      assert s == [s[0]] + s[1..];
    }
  }

  /** A space between two runs is dropped and the runs are joined. */
  lemma RemoveWhitespaceJoins(a: string, b: string)
    requires NoWhitespace(a)
    ensures RemoveWhitespace(a + " " + b) == a + RemoveWhitespace(b)
  {
    assert a + " " + b == a + (" " + b);
    RemoveWhitespaceConcat(a, " " + b);
    RemoveWhitespaceNoop(a);
    assert (" " + b)[1..] == b;
  }

  /** Stripping leaves nothing exactly when there was nothing but whitespace. */
  lemma RemoveWhitespaceEmptyIff(s: string)
    ensures RemoveWhitespace(s) == [] <==> AllWhitespace(s)
  {
    if AllWhitespace(s) {
      RemoveWhitespaceOfBlank(s);
    }
    if RemoveWhitespace(s) == [] {
      forall k | 0 <= k < |s| ensures IsWhitespace(s[k]) {
        assert s[k] in multiset(s);
        assert multiset(RemoveWhitespace(s))[s[k]] == 0;
      }
    }
  }

  /** A string of whitespace strips to nothing. */
  lemma {:induction false} RemoveWhitespaceOfBlank(s: string)
    requires AllWhitespace(s)
    ensures RemoveWhitespace(s) == []
    decreases |s|
  {
    if |s| > 0 {
      RemoveWhitespaceOfBlank(s[1..]);
    }
  }

  /** Where the trimmed part of `s` sits, with the whitespace cut on either side. */
  lemma TrimBounds(s: string) returns (pre: string, post: string)
    ensures s == pre + Trim(s) + post
    ensures AllWhitespace(pre) && AllWhitespace(post)
  {
    var r := Trim(s);
    var i, j :| 0 <= i <= j <= |s| && r == s[i..j]
      && (forall k :: 0 <= k < i ==> IsWhitespace(s[k]))
      && (forall k :: j <= k < |s| ==> IsWhitespace(s[k]))
      && (i < j ==> !IsWhitespace(s[i]) && !IsWhitespace(s[j - 1]));
    pre, post := s[..i], s[j..];
    assert AllWhitespace(pre) by {
      forall k | 0 <= k < |pre| ensures IsWhitespace(pre[k]) { assert pre[k] == s[k]; }
    }
    assert AllWhitespace(post) by {
      forall k | 0 <= k < |post| ensures IsWhitespace(post[k]) { assert post[k] == s[j + k]; }
    }
    SplitThree(s, i, j);
  }

  lemma SplitThree<T>(s: seq<T>, i: int, j: int)
    requires 0 <= i <= j <= |s|
    ensures s == s[..i] + s[i..j] + s[j..]
  {
  }

  /** Trimming first makes no difference to what stripping leaves. */
  lemma RemoveWhitespaceOfTrim(s: string)
    ensures RemoveWhitespace(Trim(s)) == RemoveWhitespace(s)
  {
    var pre, post := TrimBounds(s);
    var r := Trim(s);
    RemoveWhitespaceConcat(pre + r, post);
    RemoveWhitespaceConcat(pre, r);
    RemoveWhitespaceOfBlank(pre);
    RemoveWhitespaceOfBlank(post);
  }

  /** Stripping whitespace twice changes nothing beyond stripping it once. */
  lemma RemoveWhitespaceIdempotent(s: string)
    ensures RemoveWhitespace(RemoveWhitespace(s)) == RemoveWhitespace(s)
  {
    RemoveWhitespaceNoop(RemoveWhitespace(s));
  }
}
