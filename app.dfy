/**
 The computations of the creator-audit page (`app.py`): turning a pasted
 channel link into an identifier, the rounded average view count, and the
 "Top 10 Performing Videos" table. Topic clustering is in module Topics.
 */
module App {
  import opened Text
  import opened Videos

  // ---------------------------------------------------------------------
  // Channel identifier from a pasted link (app.py:33-41)
  // ---------------------------------------------------------------------

  /**
   The four-branch heuristic, tried in this order: a link with `@` gives its
   last `/`-piece (after stripping whitespace) with every `@` removed; a link
   with `channel` gives the first `/`-piece of the text after `/channel/`; a
   link with `user` or `c` gives its last `/`-piece; anything else is
   returned as it is.
   */
  function ExtractChannelId(url: string): (id: string)
    ensures '@' in url ==> '/' !in id && '@' !in id && |id| <= |url|
    ensures '@' in url ==> exists t :: LastSegment(t, Strip(url), '/') && id == RemoveChar(t, '@')
    ensures '@' !in url && Contains(url, "channel") ==>
      '/' !in id && Contains(url, id) && !Contains(id, "/channel/")
    ensures '@' !in url && Contains(url, "channel") ==>
      exists a :: IsSuffix(a, url) && !Contains(a, "/channel/") &&
        (a == url || OccursBefore(url, "/channel/", a)) && FirstSegment(id, a, '/')
    ensures '@' !in url && !Contains(url, "channel") && (Contains(url, "user") || 'c' in url) ==>
      LastSegment(id, url, '/')
    ensures '@' !in url && !Contains(url, "channel") && !Contains(url, "user") && 'c' !in url ==>
      id == url
  {
    if '@' in url then
      var piece := LastPart(Strip(url), "/");
      LastPartOneChar(Strip(url), '/');
      ContainsChar(piece, '/');
      RemoveCharKeeps(piece, '@', '/');
      StripShorter(url);
      RemoveChar(piece, '@')
    else if Contains(url, "channel") then
      var after := LastPart(url, "/channel/");
      var id := FirstPart(after, "/");
      ContainsChar(id, '/');
      SuffixContained(after, url);
      PrefixContained(id, after);
      ContainsTrans(url, after, id);
      PrefixFree(id, after, "/channel/");
      FirstPartOneChar(after, '/');
      id
    else if Contains(url, "user") || 'c' in url then
      var id := LastPart(url, "/");
      LastPartOneChar(url, '/');
      id
    else
      url
  }

  /**
   The `@` and `user`/`c` answers are determined by the last `/`-segment:
   whichever text is the last segment, the answer is that piece (with `@`
   removed for a handle link).
   */
  lemma ExtractChannelIdBySegment(url: string, t: string)
    ensures '@' in url && LastSegment(t, Strip(url), '/') ==> ExtractChannelId(url) == RemoveChar(t, '@')
    ensures ('@' !in url && !Contains(url, "channel") && (Contains(url, "user") || 'c' in url) &&
             LastSegment(t, url, '/')) ==> ExtractChannelId(url) == t
  {
    var id := ExtractChannelId(url);
    if '@' in url && LastSegment(t, Strip(url), '/') {
      var t' :| LastSegment(t', Strip(url), '/') && id == RemoveChar(t', '@');
      LastSegmentUnique(t, t', Strip(url), '/');
    }
    if '@' !in url && !Contains(url, "channel") && (Contains(url, "user") || 'c' in url) && LastSegment(t, url, '/') {
      LastSegmentUnique(t, id, url, '/');
    }
  }

  /**
   The `channel` answer is determined by the text `a` after the `/channel/`
   where the split makes its last cut: the answer is the part of `a` before
   its first `/`.
   */
  lemma ExtractChannelIdByChannelPiece(url: string, a: string)
    requires '@' !in url && Contains(url, "channel")
    requires a == LastPart(url, "/channel/")
    ensures forall u :: FirstSegment(u, a, '/') ==> ExtractChannelId(url) == u
  {
    FirstPartOneChar(a, '/');
    forall u | FirstSegment(u, a, '/')
      ensures FirstPart(a, "/") == u
    {
      FirstSegmentUnique(u, FirstPart(a, "/"), a, '/');
    }
  }

  lemma RemoveCharKeeps(s: string, c: char, d: char)
    requires c != d && d !in s
    ensures d !in RemoveChar(s, c)
  {
    var r := RemoveChar(s, c);
    assert multiset(r)[d] == multiset(s)[d];
  }

  lemma StripShorter(s: string)
    ensures |Strip(s)| <= |s|
  {
    var a :| StrippedAt(s, Strip(s), a);
  }

  lemma SuffixContained(p: string, s: string)
    requires IsSuffix(p, s)
    ensures Contains(s, p)
  {
    assert OccursAt(s, p, |s| - |p|);
  }

  lemma PrefixContained(p: string, s: string)
    requires IsPrefix(p, s)
    ensures Contains(s, p)
  {
    assert OccursAt(s, p, 0);
  }

  /** A prefix of a text free of `pat` is free of `pat`. */
  lemma PrefixFree(p: string, s: string, pat: string)
    requires IsPrefix(p, s) && !Contains(s, pat)
    ensures !Contains(p, pat)
  {
    if Contains(p, pat) {
      PrefixContained(p, s);
      ContainsTrans(s, p, pat);
    }
  }

  /**
   With a one-character separator the last piece is determined: it is the
   text after the last occurrence of the character.
   */
  lemma LastPieceAfterLastSeparator(q: string, c: char, h: string)
    requires c !in h
    ensures LastPart(q + [c] + h, [c]) == h
  {
    var s := q + [c] + h;
    var r := LastPart(s, [c]);
    ContainsChar(r, c);
    assert s[|q|] == c;
    if r == s {
      assert false;
    }
    assert OccursBefore(s, [c], r);
    var k := |s| - |r| - 1;
    assert s[k] == c by {
      assert s[k..k + 1] == [c];
    }
    if |r| < |h| {
      assert false;
    } else if |r| > |h| {
      assert false;
    }
    assert r == s[|s| - |h|..] == h;
  }

  /** A handle link `p/@h` gives the handle `h`, whatever whitespace surrounds the link. */
  lemma HandleLink(p: string, h: string)
    requires h != [] && '/' !in h && '@' !in h && !IsSpace(h[|h| - 1])
    ensures ExtractChannelId(p + "/@" + h) == h
  {
    var url := p + "/@" + h;
    assert url == p + "/" + ("@" + h);
    assert url[|p| + 1] == '@';
    HandleLinkLastPiece(p, h);
    LastPartOneChar(Strip(url), '/');
    ExtractChannelIdBySegment(url, "@" + h);
    RemoveCharAbsent(h, '@');
    assert RemoveChar("@" + h, '@') == RemoveChar(h, '@') by {
      assert ("@" + h)[1..] == h;
    }
  }

  lemma HandleLinkLastPiece(p: string, h: string)
    requires h != [] && '/' !in h && '@' !in h && !IsSpace(h[|h| - 1])
    ensures LastPart(Strip(p + "/" + ("@" + h)), "/") == "@" + h
  {
    var a := StripHandleLink(p, h);
    LastPieceAfterLastSeparator(p[a..], '/', "@" + h);
  }

  /** Stripping a handle link only cuts blanks in front of it. */
  lemma StripHandleLink(p: string, h: string) returns (a: nat)
    requires h != [] && !IsSpace(h[|h| - 1])
    ensures a <= |p| && Strip(p + "/" + ("@" + h)) == p[a..] + ['/'] + ("@" + h)
  {
    var url := p + "/" + ("@" + h);
    var t := Strip(url);
    a :| StrippedAt(url, t, a);
    assert url[|url| - 1] == h[|h| - 1];
    assert url[|p|] == '/';
    StrippedInner(url, t, a, |p|);
    ConcatTail(p, "@" + h, a);
  }

  /** Stripping keeps every character from the first to the last non-blank one. */
  lemma StrippedInner(s: string, t: string, a: nat, j: nat)
    requires StrippedAt(s, t, a)
    requires j < |s| && !IsSpace(s[j]) && !IsSpace(s[|s| - 1])
    ensures a <= j && t == s[a..]
  {
    if a + |t| < |s| {
      assert false;
    }
    if a > j {
      assert false;
    }
  }

  lemma ConcatTail(p: string, h: string, a: nat)
    requires a <= |p|
    ensures (p + "/" + h)[a..] == p[a..] + ['/'] + h
  {
  }

  /**
   A link whose first `/channel/` is followed by the identifier and then
   nothing or a `/` gives that identifier.
   */
  lemma ChannelLink(p: string, id: string, rest: string)
    requires '@' !in p + "/channel/" + (id + rest)
    requires FindFrom(p + "/channel/" + (id + rest), "/channel/", 0) == Some(|p|)
    requires !Contains(id + rest, "/channel/")
    requires '/' !in id && (rest == [] || rest[0] == '/')
    ensures ExtractChannelId(p + "/channel/" + (id + rest)) == id
  {
    ChannelWord(p, id + rest);
    TextAfterChannel(p, id + rest);
    IdentifierPiece(id, rest);
  }

  lemma IdentifierPiece(id: string, rest: string)
    requires '/' !in id && (rest == [] || rest[0] == '/')
    ensures FirstPart(id + rest, "/") == id
  {
    if rest == [] {
      ContainsChar(id, '/');
      SplitOfAbsent(id, "/");
      assert id + rest == id;
    } else {
      FirstPieceBeforeSeparator(id, '/', rest[1..]);
      assert id + rest == id + ['/'] + rest[1..];
    }
  }

  lemma ChannelWord(p: string, t: string)
    ensures Contains(p + "/channel/" + t, "channel")
  {
    var url := p + "/channel/" + t;
    assert url[|p| + 1..|p| + 8] == "channel";
    assert OccursAt(url, "channel", |p| + 1);
  }

  lemma TextAfterChannel(p: string, t: string)
    requires FindFrom(p + "/channel/" + t, "/channel/", 0) == Some(|p|)
    requires !Contains(t, "/channel/")
    ensures LastPart(p + "/channel/" + t, "/channel/") == t
  {
    var url := p + "/channel/" + t;
    assert url[|p| + |"/channel/"|..] == t;
    LastPartAfterFirst(url, "/channel/", |p|);
  }

  /**
   With a one-character separator the first piece is the text before the
   first occurrence of the character.
   */
  lemma FirstPieceBeforeSeparator(h: string, c: char, q: string)
    requires c !in h
    ensures FirstPart(h + [c] + q, [c]) == h
  {
    var s := h + [c] + q;
    var r := FirstPart(s, [c]);
    ContainsChar(r, c);
    assert s[|h|] == c;
    if r == s {
      assert false;
    }
    assert s[|r|] == c by {
      assert s[|r|..|r| + 1] == [c];
    }
    if |r| < |h| {
      assert false;
    } else if |r| > |h| {
      assert false;
    }
    assert r == s[..|h|] == h;
  }

  // ---------------------------------------------------------------------
  // Average views (app.py:75-76)
  // ---------------------------------------------------------------------

  function Abs(x: int): nat
  {
    if x < 0 then -x else x
  }

  /**
   Python's `round(num / den)`: the integer nearest to the quotient, an exact
   half going to the even neighbour.
   */
  function RoundHalfEven(num: nat, den: nat): (r: nat)
    requires den > 0
    ensures 2 * Abs(r * den - num) <= den
    ensures 2 * Abs(r * den - num) == den ==> r % 2 == 0
  {
    var (q, rem) := QuotRem(num, den);
    if 2 * rem > den || (2 * rem == den && q % 2 == 1) then
      RoundUp(num, den, q, rem);
      q + 1
    else
      RoundDown(num, den, q, rem);
      q
  }

  /** Euclidean quotient and remainder of a natural number by a positive one. */
  function QuotRem(num: nat, den: nat): (qr: (nat, nat))
    requires den > 0
    ensures num == qr.0 * den + qr.1 && qr.1 < den
  {
    (num / den, num % den)
  }

  lemma RoundUp(num: nat, den: nat, q: int, rem: int)
    requires num == q * den + rem && 0 <= rem < den && 2 * rem >= den
    ensures 2 * Abs((q + 1) * den - num) <= den
    ensures 2 * Abs((q + 1) * den - num) == den <==> 2 * rem == den
  {
    assert (q + 1) * den - num == den - rem;
  }

  lemma RoundDown(num: nat, den: nat, q: int, rem: int)
    requires num == q * den + rem && 0 <= rem < den && 2 * rem <= den
    ensures 2 * Abs(q * den - num) <= den
    ensures 2 * Abs(q * den - num) == den <==> 2 * rem == den
  {
  }

  lemma MulMonotone(a: int, b: int, c: nat)
    requires a <= b
    ensures a * c <= b * c
  {
    assert b * c - a * c == (b - a) * c;
  }

  /** Distinct multiples of `den` are at least `den` apart, two steps at least `2 * den`. */
  lemma ProductGap(lo: int, hi: int, den: nat)
    requires lo < hi
    ensures hi * den - lo * den >= den
    ensures hi >= lo + 2 ==> hi * den - lo * den >= 2 * den
  {
    MulSucc(lo, den);
    MulMonotone(lo + 1, hi, den);
    if hi >= lo + 2 {
      MulSucc(lo + 1, den);
      MulMonotone(lo + 2, hi, den);
    }
  }

  /**
   The two rounding conditions single out one integer: the rounding is the
   only integer within half a step of the quotient that also settles ties
   towards the even side.
   */
  lemma RoundingUnique(num: nat, den: nat, r: int, r': int)
    requires den > 0
    requires 2 * Abs(r * den - num) <= den && (2 * Abs(r * den - num) == den ==> r % 2 == 0)
    requires 2 * Abs(r' * den - num) <= den && (2 * Abs(r' * den - num) == den ==> r' % 2 == 0)
    ensures r == r'
  {
    if r < r' {
      ProductGap(r, r', den);
      TwoRoundingsAreTies(r * den - num, r' * den - num, den, r, r');
      assert false;
    } else if r' < r {
      ProductGap(r', r, den);
      TwoRoundingsAreTies(r' * den - num, r * den - num, den, r', r);
      assert false;
    }
  }

  /** Two integers within half a step of the same quotient are neighbours, both at a tie. */
  lemma TwoRoundingsAreTies(e: int, e': int, den: nat, lo: int, hi: int)
    requires den > 0 && lo < hi
    requires e' - e >= den && (hi >= lo + 2 ==> e' - e >= 2 * den)
    requires 2 * Abs(e) <= den && 2 * Abs(e') <= den
    ensures hi == lo + 1 && 2 * Abs(e) == den && 2 * Abs(e') == den
  {
  }

  /** `calculate_avg_views`: 0 for no videos, else the rounded mean of the views. */
  function AvgViews(videos: seq<Video>): (r: nat)
    ensures videos == [] ==> r == 0
    ensures videos != [] ==> 2 * Abs(r * |videos| - TotalViews(videos)) <= |videos|
    ensures videos != [] && 2 * Abs(r * |videos| - TotalViews(videos)) == |videos| ==> r % 2 == 0
  {
    if videos != [] then RoundHalfEven(TotalViews(videos), |videos|) else 0
  }

  /** The average lies within any bounds that hold for every video's views. */
  lemma AvgViewsBetween(videos: seq<Video>, lo: nat, hi: nat)
    requires videos != []
    requires forall v :: v in videos ==> lo <= v.views <= hi
    ensures lo <= AvgViews(videos) <= hi
  {
    var n, s, r := |videos|, TotalViews(videos), AvgViews(videos);
    SumOfBetween(videos, ViewsOf, lo, hi);
    if r < lo {
      ProductGap(r, lo, n);
      FarFromMean(r * n, s, n, lo * n - r * n);
    }
    if r > hi {
      ProductGap(hi, r, n);
      FarFromMean(r * n, s, n, r * n - hi * n);
    }
  }

  lemma FarFromMean(rn: int, s: int, n: nat, gap: int)
    requires n > 0 && gap >= n
    requires s - rn >= gap || rn - s >= gap
    ensures 2 * Abs(rn - s) > n
  {
  }

  /** Reordering the videos does not change the average. */
  lemma AvgViewsPermutation(a: seq<Video>, b: seq<Video>)
    requires multiset(a) == multiset(b)
    ensures AvgViews(a) == AvgViews(b)
  {
    SumOfPermutation(a, b, ViewsOf);
    assert |a| == |multiset(a)| == |multiset(b)| == |b|;
  }

  function WithViews(views: nat): Video
  {
    Video("", "", "", views, 0, 0)
  }

  /** The example list of three videos viewed 100, 300 and 200 times has 600 views in all. */
  lemma ExampleTotal()
    ensures TotalViews([WithViews(100), WithViews(300), WithViews(200)]) == 600
  {
    var one := [WithViews(100)];
    var two := one + [WithViews(300)];
    var vs := two + [WithViews(200)];
    assert one[..0] == [];
    assert SumOf(one, ViewsOf) == 100;
    assert two[..1] == one;
    assert SumOf(two, ViewsOf) == 400;
    assert vs[..2] == two;
    assert vs == [WithViews(100), WithViews(300), WithViews(200)];
  }

  lemma AvgViewsExample()
    ensures AvgViews([WithViews(100), WithViews(300), WithViews(200)]) == 200
  {
    ExampleTotal();
    var r := AvgViews([WithViews(100), WithViews(300), WithViews(200)]);
    assert 2 * Abs(r * 3 - 600) <= 3;
  }

  // ---------------------------------------------------------------------
  // Top 10 performing videos (app.py:190)
  // ---------------------------------------------------------------------

  const TopCount := 10

  predicate ByViewsDesc(s: seq<Video>)
  {
    forall i, j :: 0 <= i < j < |s| ==> s[i].views >= s[j].views
  }

  function InsertByViews(v: Video, s: seq<Video>): (r: seq<Video>)
    ensures multiset(r) == multiset(s) + multiset{v}
    ensures |r| == |s| + 1
  {
    if s == [] then [v]
    else if v.views >= s[0].views then [v] + s
    else
      assert s == [s[0]] + s[1..];
      [s[0]] + InsertByViews(v, s[1..])
  }

  /** Inserting into a list sorted by views keeps it sorted. */
  lemma {:induction false} InsertByViewsSorted(v: Video, s: seq<Video>)
    requires ByViewsDesc(s)
    ensures ByViewsDesc(InsertByViews(v, s))
  {
    var r := InsertByViews(v, s);
    if s != [] && v.views < s[0].views {
      var rest := InsertByViews(v, s[1..]);
      assert r == [s[0]] + rest;
      InsertByViewsSorted(v, s[1..]);
      forall k | 0 <= k < |rest|
        ensures s[0].views >= rest[k].views
      {
        assert rest[k] in multiset(rest);
        if rest[k] != v {
          assert rest[k] in multiset(s[1..]);
          var m :| 0 <= m < |s[1..]| && s[1..][m] == rest[k];
          assert s[1..][m] == s[m + 1];
        }
      }
    }
  }

  /**
   The order `sort_values("views", ascending=False)` produces. The pandas
   sort is not stable, so the contract constrains only the views order and
   leaves the order of ties open.
   */
  function SortByViews(s: seq<Video>): (r: seq<Video>)
    ensures multiset(r) == multiset(s)
    ensures ByViewsDesc(r)
  {
    if s == [] then []
    else
      assert s == [s[0]] + s[1..];
      InsertByViewsSorted(s[0], SortByViews(s[1..]));
      InsertByViews(s[0], SortByViews(s[1..]))
  }

  /**
   `sort_values("views", ascending=False).head(10)`: at most ten videos, in
   non-increasing order of views, drawn from the input, and no video left
   out has more views than one kept.
   */
  function TopVideos(videos: seq<Video>): (top: seq<Video>)
    ensures |top| == if |videos| < TopCount then |videos| else TopCount
    ensures ByViewsDesc(top)
    ensures multiset(top) <= multiset(videos)
    ensures forall x, y :: x in multiset(videos) - multiset(top) && y in top ==> x.views <= y.views
  {
    var sorted := SortByViews(videos);
    assert |sorted| == |multiset(sorted)| == |videos|;
    var k := if |sorted| < TopCount then |sorted| else TopCount;
    SortedCut(sorted, k);
    sorted[..k]
  }

  /** Cutting a list sorted by views leaves no more-viewed video behind. */
  lemma SortedCut(sorted: seq<Video>, k: nat)
    requires ByViewsDesc(sorted) && k <= |sorted|
    ensures multiset(sorted[..k]) <= multiset(sorted)
    ensures multiset(sorted) - multiset(sorted[..k]) == multiset(sorted[k..])
    ensures forall x, y :: x in multiset(sorted[k..]) && y in sorted[..k] ==> x.views <= y.views
  {
    assert sorted == sorted[..k] + sorted[k..];
    forall x, y | x in multiset(sorted[k..]) && y in sorted[..k]
      ensures x.views <= y.views
    {
      assert x in sorted[k..];
      var i :| k <= i < |sorted| && sorted[i] == x;
      var j :| 0 <= j < k && sorted[j] == y;
    }
  }
}
