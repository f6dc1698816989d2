/**
 The string operations the audit tool relies on, as Python defines them on
 `str`: substring search (`pat in s`), `split` with a non-empty separator,
 `join`, `strip()`, `lower()` and `replace(c, '')`. Case folding and
 whitespace are restricted to ASCII.
 */
module Text {

  datatype Option<T> = None | Some(value: T)

  /** `pat` occurs in `s` starting at index `i`. */
  predicate OccursAt(s: string, pat: string, i: nat)
  {
    i + |pat| <= |s| && s[i..i + |pat|] == pat
  }

  /** Python's `pat in s`. */
  predicate Contains(s: string, pat: string)
  {
    exists i :: 0 <= i <= |s| && OccursAt(s, pat, i)
  }

  predicate IsPrefix(p: string, s: string)
  {
    |p| <= |s| && s[..|p|] == p
  }

  predicate IsSuffix(p: string, s: string)
  {
    |p| <= |s| && s[|s| - |p|..] == p
  }

  /** The first index at or after `from` where `pat` occurs, as `str.find` scans. */
  function FindFrom(s: string, pat: string, from: nat): (r: Option<nat>)
    requires from <= |s|
    ensures r.Some? ==> from <= r.value && OccursAt(s, pat, r.value)
    ensures r.Some? ==> forall j :: from <= j < r.value ==> !OccursAt(s, pat, j)
    ensures r.None? ==> forall j :: from <= j ==> !OccursAt(s, pat, j)
    decreases |s| - from
  {
    if OccursAt(s, pat, from) then Some(from)
    else if from == |s| then None
    else FindFrom(s, pat, from + 1)
  }

  lemma ContainsIffFound(s: string, pat: string)
    ensures Contains(s, pat) <==> FindFrom(s, pat, 0).Some?
  {
    var r := FindFrom(s, pat, 0);
    if r.Some? {
      assert OccursAt(s, pat, r.value);
    }
  }

  /** A one-character pattern occurs exactly when the character is an element. */
  lemma ContainsChar(s: string, c: char)
    ensures Contains(s, [c]) <==> c in s
  {
    if c in s {
      var i :| 0 <= i < |s| && s[i] == c;
      assert OccursAt(s, [c], i);
    }
    if Contains(s, [c]) {
      var i :| 0 <= i <= |s| && OccursAt(s, [c], i);
      assert s[i] == s[i..i + 1][0];
    }
  }

  /** Containment is transitive: an occurrence of `q` inside an occurrence of `p` is one in `s`. */
  lemma ContainsTrans(s: string, p: string, q: string)
    requires Contains(s, p) && Contains(p, q)
    ensures Contains(s, q)
  {
    var i :| 0 <= i <= |s| && OccursAt(s, p, i);
    var j :| 0 <= j <= |p| && OccursAt(p, q, j);
    assert p == s[i..i + |p|];
    forall k | 0 <= k < |q|
      ensures q[k] == s[i + j + k]
    {
      assert q[k] == p[j + k];
    }
    assert q == s[i + j..i + j + |q|];
    assert OccursAt(s, q, i + j);
  }

  /** Python's `sep.join(parts)`. */
  function Join(parts: seq<string>, sep: string): string
  {
    if |parts| == 0 then ""
    else if |parts| == 1 then parts[0]
    else parts[0] + sep + Join(parts[1..], sep)
  }

  /**
   Python's `s.split(sep)` for a non-empty separator: scanning left to right,
   every non-overlapping occurrence of `sep` cuts `s`.
   */
  function Split(s: string, sep: string): (parts: seq<string>)
    requires sep != []
    ensures |parts| >= 1
    decreases |s|
  {
    match FindFrom(s, sep, 0)
    case None => [s]
    case Some(i) => [s[..i]] + Split(s[i + |sep|..], sep)
  }

  /** The pieces of a split contain no occurrence of the separator. */
  lemma {:induction false} SplitPiecesFree(s: string, sep: string)
    requires sep != []
    ensures forall k :: 0 <= k < |Split(s, sep)| ==> !Contains(Split(s, sep)[k], sep)
    decreases |s|
  {
    match FindFrom(s, sep, 0)
    case None =>
    case Some(i) =>
      SplitPiecesFree(s[i + |sep|..], sep);
      NoEarlierOccurrence(s, sep, i);
      assert Split(s, sep) == [s[..i]] + Split(s[i + |sep|..], sep);
  }

  /** Joining the pieces of a split with the separator gives the text back. */
  lemma {:induction false} JoinSplit(s: string, sep: string)
    requires sep != []
    ensures Join(Split(s, sep), sep) == s
    decreases |s|
  {
    match FindFrom(s, sep, 0)
    case None =>
    case Some(i) =>
      var rest := Split(s[i + |sep|..], sep);
      JoinSplit(s[i + |sep|..], sep);
      assert Split(s, sep) == [s[..i]] + rest;
      assert s == s[..i] + sep + s[i + |sep|..];
  }

  /** No occurrence of `sep` lies within the text before its first occurrence. */
  lemma NoEarlierOccurrence(s: string, sep: string, i: nat)
    requires i <= |s|
    requires forall j :: 0 <= j < i ==> !OccursAt(s, sep, j)
    requires sep != []
    ensures !Contains(s[..i], sep)
  {
    forall j | 0 <= j <= i
      ensures !OccursAt(s[..i], sep, j)
    {
      if j + |sep| <= i {
        assert !OccursAt(s, sep, j);
        assert s[..i][j..j + |sep|] == s[j..j + |sep|];
      }
    }
  }

  /** A text that contains `sep` splits into at least two pieces. */
  lemma SplitOfContaining(s: string, sep: string)
    requires sep != []
    requires Contains(s, sep)
    ensures |Split(s, sep)| >= 2
  {
    ContainsIffFound(s, sep);
  }

  /** A text without `sep` is its own only piece. */
  lemma SplitOfAbsent(s: string, sep: string)
    requires sep != []
    requires !Contains(s, sep)
    ensures Split(s, sep) == [s]
  {
    ContainsIffFound(s, sep);
  }

  /**
   `s.split(sep)[0]`: the longest prefix of `s` free of `sep`; it is all of
   `s` or is followed by an occurrence of `sep`.
   */
  function FirstPart(s: string, sep: string): (r: string)
    requires sep != []
    ensures IsPrefix(r, s) && !Contains(r, sep)
    ensures r == s || OccursAt(s, sep, |r|)
    ensures forall j :: 0 <= j < |r| ==> !OccursAt(s, sep, j)
  {
    ContainsIffFound(s, sep);
    SplitPiecesFree(s, sep);
    Split(s, sep)[0]
  }

  /**
   `s.split(sep)[-1]`: a suffix of `s` free of `sep`; it is all of `s` or
   is preceded by an occurrence of `sep`.
   */
  function LastPart(s: string, sep: string): (r: string)
    requires sep != []
    ensures IsSuffix(r, s) && !Contains(r, sep)
    ensures r == s || OccursBefore(s, sep, r)
  {
    LastPartSuffix(s, sep);
    LastPartPreceded(s, sep);
    SplitPiecesFree(s, sep);
    Last(Split(s, sep))
  }

  /** `t` is the text after the last `c` in `s`, or all of `s` when `c` does not occur. */
  predicate LastSegment(t: string, s: string, c: char)
  {
    IsSuffix(t, s) && c !in t && (t == s || s[|s| - |t| - 1] == c)
  }

  /** `t` is the text before the first `c` in `s`, or all of `s` when `c` does not occur. */
  predicate FirstSegment(t: string, s: string, c: char)
  {
    IsPrefix(t, s) && c !in t && (t == s || s[|t|] == c)
  }

  /** With a one-character separator, `split(c)[-1]` is the last segment. */
  lemma LastPartOneChar(s: string, c: char)
    ensures LastSegment(LastPart(s, [c]), s, c)
  {
    var r := LastPart(s, [c]);
    ContainsChar(r, c);
    if r != s {
      assert s[|s| - |r| - 1] == s[|s| - |r| - 1..|s| - |r|][0];
    }
  }

  /** With a one-character separator, `split(c)[0]` is the first segment. */
  lemma FirstPartOneChar(s: string, c: char)
    ensures FirstSegment(FirstPart(s, [c]), s, c)
  {
    var r := FirstPart(s, [c]);
    ContainsChar(r, c);
    if r != s {
      assert s[|r|] == s[|r|..|r| + 1][0];
    }
  }

  /** A suffix free of `c` is no longer than the last segment. */
  lemma SegmentLongest(t: string, u: string, s: string, c: char)
    requires LastSegment(t, s, c) && IsSuffix(u, s) && c !in u
    ensures |u| <= |t|
  {
    if t != s {
      assert s[|s| - |t| - 1] == c;
      assert forall k :: 0 <= k < |u| ==> s[|s| - |u| + k] == u[k];
    }
  }

  /** There is only one last segment. */
  lemma LastSegmentUnique(t: string, u: string, s: string, c: char)
    requires LastSegment(t, s, c) && LastSegment(u, s, c)
    ensures t == u
  {
    SegmentLongest(t, u, s, c);
    SegmentLongest(u, t, s, c);
  }

  /** A prefix free of `c` is no longer than the first segment. */
  lemma SegmentFirstLongest(t: string, u: string, s: string, c: char)
    requires FirstSegment(t, s, c) && IsPrefix(u, s) && c !in u
    ensures |u| <= |t|
  {
    if t != s {
      assert s[|t|] == c;
      assert forall k :: 0 <= k < |u| ==> s[k] == u[k];
    }
  }

  /** There is only one first segment. */
  lemma FirstSegmentUnique(t: string, u: string, s: string, c: char)
    requires FirstSegment(t, s, c) && FirstSegment(u, s, c)
    ensures t == u
  {
    SegmentFirstLongest(t, u, s, c);
    SegmentFirstLongest(u, t, s, c);
  }

  /**
   `s.split(sep)[1]`, which exists once `sep` occurs in `s`: the first piece
   of the text that follows the first occurrence of `sep`.
   */
  function SecondPart(s: string, sep: string): (r: string)
    requires sep != [] && Contains(s, sep)
    ensures FindFrom(s, sep, 0).Some?
    ensures r == FirstPart(s[FindFrom(s, sep, 0).value + |sep|..], sep)
  {
    ContainsIffFound(s, sep);
    SplitOfContaining(s, sep);
    Split(s, sep)[1]
  }

  /** When the text after the first `sep` holds no `sep`, it is the last piece. */
  lemma LastPartAfterFirst(s: string, sep: string, i: nat)
    requires sep != [] && FindFrom(s, sep, 0) == Some(i)
    requires !Contains(s[i + |sep|..], sep)
    ensures LastPart(s, sep) == s[i + |sep|..]
  {
    var t := s[i + |sep|..];
    SplitOfAbsent(t, sep);
    var parts := Split(s, sep);
    assert parts == [s[..i]] + [t];
    assert Last(parts) == t;
  }

  /** The last element of a non-empty sequence (Python's `xs[-1]`). */
  function Last<T>(xs: seq<T>): T
    requires |xs| > 0
  {
    xs[|xs| - 1]
  }

  lemma {:induction false} LastPartSuffix(s: string, sep: string)
    requires sep != []
    ensures IsSuffix(Last(Split(s, sep)), s)
    decreases |s|
  {
    match FindFrom(s, sep, 0)
    case None =>
    case Some(i) =>
      var tail := s[i + |sep|..];
      var parts := Split(tail, sep);
      assert Split(s, sep) == [s[..i]] + parts;
      assert Last(Split(s, sep)) == Last(parts);
      LastPartSuffix(tail, sep);
      SuffixOfSuffix(Last(parts), tail, s);
  }

  lemma SuffixOfSuffix(x: string, t: string, s: string)
    requires IsSuffix(x, t) && IsSuffix(t, s)
    ensures IsSuffix(x, s)
  {
    assert s[|s| - |x|..] == s[|s| - |t|..][|t| - |x|..];
  }

  lemma {:induction false} LastPartPreceded(s: string, sep: string)
    requires sep != []
    ensures Last(Split(s, sep)) == s || OccursBefore(s, sep, Last(Split(s, sep)))
    decreases |s|
  {
    match FindFrom(s, sep, 0)
    case None =>
    case Some(i) =>
      var d := i + |sep|;
      var tail := s[d..];
      var r := Last(Split(tail, sep));
      assert Last(Split(s, sep)) == r by {
        assert Split(s, sep) == [s[..i]] + Split(tail, sep);
      }
      LastPartSuffix(tail, sep);
      LastPartPreceded(tail, sep);
      if r == tail {
        assert OccursBefore(s, sep, r) by {
          assert OccursAt(s, sep, i);
          assert |s| - |r| - |sep| == i;
        }
      } else {
        PrecededInTail(s, d, sep, r);
      }
  }

  /** The suffix `r` of `s` is directly preceded in `s` by an occurrence of `sep`. */
  predicate OccursBefore(s: string, sep: string, r: string)
  {
    |r| + |sep| <= |s| && OccursAt(s, sep, |s| - |r| - |sep|)
  }

  lemma PrecededInTail(s: string, d: nat, sep: string, r: string)
    requires d <= |s| && OccursBefore(s[d..], sep, r)
    ensures OccursBefore(s, sep, r)
  {
    var m := |s| - d - |r| - |sep|;
    OccursInTail(s, d, sep, m);
    assert d + m == |s| - |r| - |sep|;
  }

  lemma OccursInTail(s: string, d: nat, pat: string, m: nat)
    requires d <= |s| && OccursAt(s[d..], pat, m)
    ensures OccursAt(s, pat, d + m)
  {
    assert s[d + m..d + m + |pat|] == s[d..][m..m + |pat|];
  }

  /** ASCII whitespace as Python's `str.isspace` sees it. */
  predicate IsSpace(c: char)
  {
    c == ' ' || 9 <= c as int <= 13 || 28 <= c as int <= 31
  }

  /** `s.lstrip()`: drops the leading whitespace, and only that. */
  function StripLeft(s: string): (r: string)
    ensures IsSuffix(r, s)
    ensures r == [] || !IsSpace(r[0])
    ensures forall k :: 0 <= k < |s| - |r| ==> IsSpace(s[k])
  {
    if |s| > 0 && IsSpace(s[0]) then StripLeft(s[1..]) else s
  }

  /** `s.rstrip()`: drops the trailing whitespace, and only that. */
  function StripRight(s: string): (r: string)
    ensures IsPrefix(r, s)
    ensures r == [] || !IsSpace(r[|r| - 1])
    ensures forall k :: |r| <= k < |s| ==> IsSpace(s[k])
  {
    if |s| > 0 && IsSpace(s[|s| - 1]) then StripRight(s[..|s| - 1]) else s
  }

  /**
   `s.strip()`: the result is `s` with its leading and trailing whitespace
   cut off, so it neither starts nor ends with whitespace.
   */
  function Strip(s: string): (r: string)
    ensures exists a :: StrippedAt(s, r, a)
    ensures r == [] || (!IsSpace(r[0]) && !IsSpace(r[|r| - 1]))
  {
    var l := StripLeft(s);
    var r := StripRight(l);
    var a := |s| - |l|;
    assert l == s[a..];
    assert r == l[..|r|];
    assert s[a..a + |r|] == r;
    forall k | a + |r| <= k < |s|
      ensures IsSpace(s[k])
    {
      assert s[k] == l[k - a];
    }
    assert StrippedAt(s, r, a);
    r
  }

  /** `r` is the text of `s` from index `a`, with only whitespace before and after it. */
  predicate StrippedAt(s: string, r: string, a: nat)
  {
    && a + |r| <= |s| && s[a..a + |r|] == r
    && (forall k :: 0 <= k < a ==> IsSpace(s[k]))
    && (forall k :: a + |r| <= k < |s| ==> IsSpace(s[k]))
  }

  lemma StripIdempotent(s: string)
    ensures Strip(Strip(s)) == Strip(s)
  {
    var t := Strip(s);
    if t != [] {
      assert StripLeft(t) == t;
      assert StripRight(t) == t;
    }
  }

  /** `s.replace(c, '')` for one character `c`: every `c` removed, all else kept in order. */
  function RemoveChar(s: string, c: char): (r: string)
    ensures c !in r
    ensures forall x :: x != c ==> multiset(r)[x] == multiset(s)[x]
    ensures |r| <= |s|
  {
    if s == [] then []
    else
      var rest := RemoveChar(s[1..], c);
      assert s == [s[0]] + s[1..];
      if s[0] == c then rest else [s[0]] + rest
  }

  /** Removing a character from a concatenation removes it from each part, in order. */
  lemma {:induction false} RemoveCharAppend(a: string, b: string, c: char)
    ensures RemoveChar(a + b, c) == RemoveChar(a, c) + RemoveChar(b, c)
    decreases |a|
  {
    if a != [] {
      assert (a + b)[1..] == a[1..] + b;
      assert (a + b)[0] == a[0];
      RemoveCharAppend(a[1..], b, c);
    } else {
      assert a + b == b;
    }
  }

  /** On one character, `replace(c, '')` drops it when it is `c` and keeps it otherwise. */
  lemma RemoveCharOne(x: char, c: char)
    ensures RemoveChar([x], c) == if x == c then [] else [x]
  {
    assert [x][1..] == [];
  }

  lemma {:induction false} RemoveCharAbsent(s: string, c: char)
    requires c !in s
    ensures RemoveChar(s, c) == s
  {
    if s != [] {
      RemoveCharAbsent(s[1..], c);
    }
  }

  predicate IsUpper(c: char)
  {
    'A' <= c <= 'Z'
  }

  function LowerChar(c: char): char
  {
    if IsUpper(c) then (c as int + 32) as char else c
  }

  /** `s.lower()` over ASCII: upper-case letters become lower-case, all else is kept. */
  function Lower(s: string): (r: string)
    ensures |r| == |s|
    ensures forall i :: 0 <= i < |s| ==> !IsUpper(r[i])
    ensures forall i :: 0 <= i < |s| ==> LowerChar(r[i]) == LowerChar(s[i])
  {
    seq(|s|, i requires 0 <= i < |s| => LowerChar(s[i]))
  }
}
