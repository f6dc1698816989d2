/**
 The video record the audit tool builds from the platform's answers, and
 sums over a list of videos (Python's `sum(f(v) for v in videos)`).
 */
module Videos {

  /** One fetched video: its id, title, ISO-8601 publication time and counters. */
  datatype Video = Video(
    videoId: string,
    title: string,
    published: string,
    views: nat,
    likes: nat,
    comments: nat)

  function ViewsOf(v: Video): nat
  {
    v.views
  }

  /** The sum of `f` over the elements of `s`, in order. */
  function SumOf<T>(s: seq<T>, f: T -> nat): nat
  {
    if s == [] then 0 else SumOf(s[..|s| - 1], f) + f(s[|s| - 1])
  }

  /** Total views of a list of videos. */
  function TotalViews(videos: seq<Video>): nat
  {
    SumOf(videos, ViewsOf)
  }

  lemma {:induction false} SumOfAppend<T>(a: seq<T>, b: seq<T>, f: T -> nat)
    ensures SumOf(a + b, f) == SumOf(a, f) + SumOf(b, f)
    decreases |b|
  {
    if b != [] {
      assert (a + b)[..|a + b| - 1] == a + b[..|b| - 1];
      SumOfAppend(a, b[..|b| - 1], f);
    } else {
      assert a + b == a;
    }
  }

  /** A sum does not depend on the order of the elements. */
  lemma {:induction false} SumOfPermutation<T>(a: seq<T>, b: seq<T>, f: T -> nat)
    requires multiset(a) == multiset(b)
    ensures SumOf(a, f) == SumOf(b, f)
    decreases |a|
  {
    if a == [] {
      assert |b| == |multiset(b)| == 0;
    } else {
      var x := a[|a| - 1];
      var a' := a[..|a| - 1];
      assert a == a' + [x];
      assert x in multiset(b);
      var i :| 0 <= i < |b| && b[i] == x;
      var b' := b[..i] + b[i + 1..];
      assert b == b[..i] + [x] + b[i + 1..];
      assert multiset(b) == multiset(b[..i]) + multiset([x]) + multiset(b[i + 1..]);
      assert multiset(a) == multiset(a') + multiset([x]);
      assert multiset(b') == multiset(b[..i]) + multiset(b[i + 1..]);
      assert multiset(a') == multiset(a) - multiset([x]);
      assert multiset(a') == multiset(b');
      SumOfPermutation(a', b', f);
      SumOfAppend(b[..i] + [x], b[i + 1..], f);
      SumOfAppend(b[..i], [x], f);
      SumOfAppend(b[..i], b[i + 1..], f);
      assert SumOf([x], f) == f(x) by {
        assert [x][..0] == [];
      }
    }
  }

  /** A sum is zero exactly when every element contributes zero. */
  lemma {:induction false} SumOfZero<T>(s: seq<T>, f: T -> nat)
    ensures SumOf(s, f) == 0 <==> forall x :: x in s ==> f(x) == 0
    decreases |s|
  {
    if s != [] {
      var s' := s[..|s| - 1];
      assert s == s' + [s[|s| - 1]];
      assert forall x :: x in s <==> x in s' || x == s[|s| - 1];
      SumOfZero(s', f);
    }
  }

  /** If every element contributes between `lo` and `hi`, the sum lies between `|s| * lo` and `|s| * hi`. */
  lemma {:induction false} SumOfBetween<T>(s: seq<T>, f: T -> nat, lo: nat, hi: nat)
    requires forall x :: x in s ==> lo <= f(x) <= hi
    ensures |s| * lo <= SumOf(s, f) <= |s| * hi
    decreases |s|
  {
    if s != [] {
      var s' := s[..|s| - 1];
      assert forall x :: x in s' ==> x in s;
      SumOfBetween(s', f, lo, hi);
      MulSucc(|s'|, lo);
      MulSucc(|s'|, hi);
    }
  }

  lemma MulSucc(a: int, b: int)
    ensures (a + 1) * b == a * b + b
  {
  }
}
