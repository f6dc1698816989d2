/**
 Topic clustering of the creator-audit page (`get_topic_clusters` in
 `app.py`): every video's lower-cased title is matched against a fixed,
 ordered taxonomy of keyword lists; each category counts the videos that
 match any of its keywords (a video may count for several categories); the
 categories that matched are listed, most frequent first, ties in taxonomy
 order, joined with ", ", or "N/A" when none matched.
 */
module Topics {
  import opened Text
  import opened Videos

  datatype Category = Category(name: string, keywords: seq<string>)

  /** The taxonomy, in the order the dictionary literal lists it. */
  const Taxonomy: seq<Category> := [
    Category("Marketing", ["marketing", "brand", "ads"]),
    Category("Sales", ["sales", "pitch", "close"]),
    Category("Entrepreneurship / Business", ["business", "startup", "entrepreneur"]),
    Category("AI", ["ai", "chatgpt", "machine learning"]),
    Category("Skill Development", ["skills", "learning", "habits", "productivity"]),
    Category("Web Dev", ["html", "css", "javascript", "developer"]),
    Category("Customer Success", ["customer", "support"]),
    Category("Tech", ["tech", "software", "tools"])
  ]

  const Separator := ", "
  const NoFit := "N/A"

  /** `any(w in title for w in words)`. */
  predicate MatchesAny(title: string, words: seq<string>)
  {
    exists w :: w in words && Contains(title, w)
  }

  /** The video's lower-cased title matches one of the keywords. */
  predicate VideoMatches(v: Video, words: seq<string>)
  {
    MatchesAny(Lower(v.title), words)
  }

  /** 1 for a video that raises the category, 0 otherwise. */
  function Indicator(words: seq<string>): Video -> nat
  {
    v => if VideoMatches(v, words) then 1 else 0
  }

  /** The number of videos that match at least one of the category's keywords. */
  function CategoryCount(videos: seq<Video>, j: nat): nat
    requires j < |Taxonomy|
  {
    SumOf(videos, Indicator(Taxonomy[j].keywords))
  }

  /** The whole count table, one entry per category in taxonomy order. */
  function CategoryCounts(videos: seq<Video>): (counts: seq<nat>)
    ensures |counts| == |Taxonomy|
    ensures forall j :: 0 <= j < |Taxonomy| ==> counts[j] == CategoryCount(videos, j)
  {
    seq(|Taxonomy|, j requires 0 <= j < |Taxonomy| => CategoryCount(videos, j))
  }

  /**
   The nested loop that fills the `clusters` dictionary: for each video, for
   each category in order, add one when the lower-cased title matches.
   */
  method CountClusters(videos: seq<Video>) returns (counts: seq<nat>)
    ensures counts == CategoryCounts(videos)
  {
    counts := seq(|Taxonomy|, _ => 0);
    var i := 0;
    while i < |videos|
      invariant 0 <= i <= |videos|
      invariant |counts| == |Taxonomy|
      invariant forall l :: 0 <= l < |Taxonomy| ==> counts[l] == CategoryCount(videos[..i], l)
    {
      var title := Lower(videos[i].title);
      assert videos[..i + 1][..i] == videos[..i];
      var j := 0;
      while j < |Taxonomy|
        invariant 0 <= j <= |Taxonomy|
        invariant |counts| == |Taxonomy|
        invariant forall l :: 0 <= l < j ==> counts[l] == CategoryCount(videos[..i + 1], l)
        invariant forall l :: j <= l < |Taxonomy| ==> counts[l] == CategoryCount(videos[..i], l)
      {
        if MatchesAny(title, Taxonomy[j].keywords) {
          counts := counts[j := counts[j] + 1];
        }
        j := j + 1;
      }
      i := i + 1;
    }
    assert videos[..i] == videos;
  }

  // ---------------------------------------------------------------------
  // Ranking: sorted(clusters.items(), key=lambda x: -x[1])
  // ---------------------------------------------------------------------

  /** Category `a` comes before `b`: more matches, or as many and earlier in the taxonomy. */
  predicate RankedBefore(counts: seq<nat>, a: nat, b: nat)
    requires a < |counts| && b < |counts|
  {
    counts[a] > counts[b] || (counts[a] == counts[b] && a < b)
  }

  predicate InRange(counts: seq<nat>, xs: seq<nat>)
  {
    forall i :: 0 <= i < |xs| ==> xs[i] < |counts|
  }

  predicate RankedOrder(counts: seq<nat>, xs: seq<nat>)
    requires InRange(counts, xs)
  {
    forall i, k :: 0 <= i < k < |xs| ==> RankedBefore(counts, xs[i], xs[k])
  }

  /**
   One insertion step of a stable sort on the key `-count`: `x` goes before
   the first element with a strictly smaller count, so it stays after every
   element with the same count.
   */
  function InsertByCount(counts: seq<nat>, sorted: seq<nat>, x: nat): (r: seq<nat>)
    requires x < |counts| && InRange(counts, sorted)
    ensures multiset(r) == multiset(sorted) + multiset{x}
    ensures |r| == |sorted| + 1
  {
    if sorted == [] then [x]
    else if counts[x] > counts[sorted[0]] then [x] + sorted
    else
      assert sorted == [sorted[0]] + sorted[1..];
      [sorted[0]] + InsertByCount(counts, sorted[1..], x)
  }

  lemma InRangeByMultiset(counts: seq<nat>, xs: seq<nat>, ys: seq<nat>)
    requires InRange(counts, xs) && multiset(ys) <= multiset(xs)
    ensures InRange(counts, ys)
  {
    forall i | 0 <= i < |ys|
      ensures ys[i] < |counts|
    {
      assert ys[i] in multiset(ys);
      assert ys[i] in multiset(xs);
      var m :| 0 <= m < |xs| && xs[m] == ys[i];
    }
  }

  /** Inserting an index larger than every sorted one keeps the ranking order. */
  lemma {:induction false} InsertByCountOrdered(counts: seq<nat>, sorted: seq<nat>, x: nat)
    requires x < |counts| && InRange(counts, sorted) && RankedOrder(counts, sorted)
    requires forall i :: 0 <= i < |sorted| ==> sorted[i] < x
    ensures InRange(counts, InsertByCount(counts, sorted, x))
    ensures RankedOrder(counts, InsertByCount(counts, sorted, x))
    decreases |sorted|
  {
    var r := InsertByCount(counts, sorted, x);
    InRangeByMultiset(counts, sorted + [x], r);
    if sorted == [] {
    } else if counts[x] > counts[sorted[0]] {
      assert r == [x] + sorted;
      forall k | 0 < k < |r|
        ensures RankedBefore(counts, r[0], r[k])
      {
        if k > 1 {
          assert RankedBefore(counts, sorted[0], sorted[k - 1]);
        }
      }
    } else {
      var s0 := sorted[0];
      var tail := sorted[1..];
      assert sorted == [s0] + tail;
      var rest := InsertByCount(counts, tail, x);
      assert r == [s0] + rest;
      InRangeByMultiset(counts, sorted, tail);
      InsertByCountOrdered(counts, tail, x);
      forall k | 0 <= k < |rest|
        ensures RankedBefore(counts, s0, rest[k])
      {
        assert rest[k] in multiset(rest);
        if rest[k] != x {
          assert rest[k] in multiset(tail);
          var m :| 0 <= m < |tail| && tail[m] == rest[k];
          assert RankedBefore(counts, sorted[0], sorted[m + 1]);
        }
      }
      forall i, k | 0 <= i < k < |r|
        ensures RankedBefore(counts, r[i], r[k])
      {
        if i > 0 {
          assert RankedBefore(counts, rest[i - 1], rest[k - 1]);
        } else {
          assert RankedBefore(counts, s0, rest[k - 1]);
        }
      }
    }
  }

  /** Python's stable `sorted` on the key `-count`, as an insertion sort. */
  function StableSortByCount(counts: seq<nat>, xs: seq<nat>): (r: seq<nat>)
    requires InRange(counts, xs)
    ensures multiset(r) == multiset(xs)
    decreases |xs|
  {
    if xs == [] then []
    else
      var init := xs[..|xs| - 1];
      assert xs == init + [xs[|xs| - 1]];
      var sorted := StableSortByCount(counts, init);
      InRangeByMultiset(counts, init, sorted);
      InsertByCount(counts, sorted, xs[|xs| - 1])
  }

  /**
   Sorting indices given in increasing order (the dictionary's insertion
   order) ranks them by count, equal counts keeping that order.
   */
  lemma {:induction false} StableSortOrdered(counts: seq<nat>, xs: seq<nat>)
    requires InRange(counts, xs)
    requires forall i, k :: 0 <= i < k < |xs| ==> xs[i] < xs[k]
    ensures InRange(counts, StableSortByCount(counts, xs))
    ensures RankedOrder(counts, StableSortByCount(counts, xs))
    decreases |xs|
  {
    if xs != [] {
      var init := xs[..|xs| - 1];
      var last := xs[|xs| - 1];
      assert xs == init + [last];
      var sorted := StableSortByCount(counts, init);
      StableSortOrdered(counts, init);
      forall i | 0 <= i < |sorted|
        ensures sorted[i] < last
      {
        assert sorted[i] in multiset(sorted);
        assert sorted[i] in multiset(init);
        var m :| 0 <= m < |init| && init[m] == sorted[i];
      }
      InsertByCountOrdered(counts, sorted, last);
    }
  }

  /** The indices 0, 1, ..., n - 1: the dictionary's items in insertion order. */
  function Range(n: nat): (r: seq<nat>)
    ensures |r| == n && forall i :: 0 <= i < n ==> r[i] == i
  {
    seq(n, i => i)
  }

  /** `[k for k, v in ... if v > 0]`, on category indices. */
  function KeepPositive(counts: seq<nat>, xs: seq<nat>): (r: seq<nat>)
    requires InRange(counts, xs)
    ensures InRange(counts, r)
    ensures forall j :: j in r <==> j in xs && counts[j] > 0
    ensures RankedOrder(counts, xs) ==> RankedOrder(counts, r)
  {
    if xs == [] then []
    else
      var rest := KeepPositive(counts, xs[1..]);
      assert forall j :: j in xs[1..] ==> j in xs;
      if counts[xs[0]] > 0 then [xs[0]] + rest else rest
  }

  /**
   The categories that matched, in the printed order: exactly those with a
   positive count, each once, by non-increasing count, ties in taxonomy order.
   */
  function Ranked(counts: seq<nat>): (r: seq<nat>)
    ensures InRange(counts, r)
    ensures forall j: nat :: j in r <==> j < |counts| && counts[j] > 0
    ensures RankedOrder(counts, r)
    ensures forall i, k :: 0 <= i < k < |r| ==> r[i] != r[k] && counts[r[i]] >= counts[r[k]]
  {
    var sorted := StableSortByCount(counts, Range(|counts|));
    SortedRangeComplete(counts);
    KeepPositive(counts, sorted)
  }

  /** Every category appears in the sorted index list, which is in ranking order. */
  lemma SortedRangeComplete(counts: seq<nat>)
    ensures InRange(counts, StableSortByCount(counts, Range(|counts|)))
    ensures RankedOrder(counts, StableSortByCount(counts, Range(|counts|)))
    ensures forall j: nat :: j < |counts| ==> j in StableSortByCount(counts, Range(|counts|))
  {
    var all := Range(|counts|);
    var sorted := StableSortByCount(counts, all);
    StableSortOrdered(counts, all);
    forall j: nat | j < |counts|
      ensures j in sorted
    {
      assert all[j] == j;
      assert j in multiset(all);
    }
  }

  function Names(counts: seq<nat>, r: seq<nat>): (names: seq<string>)
    requires |counts| == |Taxonomy| && InRange(counts, r)
    ensures |names| == |r|
    ensures forall i :: 0 <= i < |r| ==> names[i] == Taxonomy[r[i]].name
  {
    seq(|r|, i requires 0 <= i < |r| => Taxonomy[r[i]].name)
  }

  /** `", ".join(ranked names) or "N/A"`. */
  function ClusterString(counts: seq<nat>): string
    requires |counts| == |Taxonomy|
  {
    var joined := Join(Names(counts, Ranked(counts)), Separator);
    if joined == [] then NoFit else joined
  }

  /**
   `get_topic_clusters`: count the matches, then rank and print them. The
   result is "N/A" exactly when no title matches any keyword.
   */
  method GetTopicClusters(videos: seq<Video>) returns (clusters: string)
    ensures clusters == ClusterString(CategoryCounts(videos))
    ensures clusters == NoFit <==>
      forall v, j :: v in videos && 0 <= j < |Taxonomy| ==> !VideoMatches(v, Taxonomy[j].keywords)
  {
    var counts := CountClusters(videos);
    clusters := ClusterString(counts);
    NoFitIffAllZero(counts);
    forall j | 0 <= j < |Taxonomy|
      ensures counts[j] == 0 <==> forall v :: v in videos ==> !VideoMatches(v, Taxonomy[j].keywords)
    {
      CountZeroIffNoMatch(videos, j);
    }
  }

  // ---------------------------------------------------------------------
  // Properties
  // ---------------------------------------------------------------------

  lemma CountZeroIffNoMatch(videos: seq<Video>, j: nat)
    requires j < |Taxonomy|
    ensures CategoryCount(videos, j) == 0 <==>
      forall v :: v in videos ==> !VideoMatches(v, Taxonomy[j].keywords)
  {
    var f := Indicator(Taxonomy[j].keywords);
    SumOfZero(videos, f);
    assert forall v :: f(v) == 0 <==> !VideoMatches(v, Taxonomy[j].keywords);
  }

  /** A category counts at most one per video. */
  lemma CategoryCountBounded(videos: seq<Video>, j: nat)
    requires j < |Taxonomy|
    ensures CategoryCount(videos, j) <= |videos|
  {
    var f := Indicator(Taxonomy[j].keywords);
    assert forall v :: v in videos ==> 0 <= f(v) <= 1;
    SumOfBetween(videos, f, 0, 1);
  }

  /** Reordering the videos changes neither the count table nor the printed clusters. */
  lemma ClustersPermutation(a: seq<Video>, b: seq<Video>)
    requires multiset(a) == multiset(b)
    ensures CategoryCounts(a) == CategoryCounts(b)
    ensures ClusterString(CategoryCounts(a)) == ClusterString(CategoryCounts(b))
  {
    forall j | 0 <= j < |Taxonomy|
      ensures CategoryCount(a, j) == CategoryCount(b, j)
    {
      SumOfPermutation(a, b, Indicator(Taxonomy[j].keywords));
    }
  }

  lemma {:induction false} JoinStartsWithFirst(parts: seq<string>, sep: string)
    requires |parts| >= 1
    ensures IsPrefix(parts[0], Join(parts, sep))
  {
  }

  /** A category name is printable in the list: non-empty, not starting like "N/A", free of commas. */
  predicate PrintableName(name: string)
  {
    name != [] && name[0] != 'N' && forall i :: 0 <= i < |name| ==> name[i] != ','
  }

  lemma TaxonomyNames()
    ensures forall j :: 0 <= j < |Taxonomy| ==> PrintableName(Taxonomy[j].name)
  {
    var names := ["Marketing", "Sales", "Entrepreneurship / Business", "AI",
                  "Skill Development", "Web Dev", "Customer Success", "Tech"];
    forall j | 0 <= j < |Taxonomy|
      ensures PrintableName(Taxonomy[j].name)
    {
      assert Taxonomy[j].name == names[j];
      assert PrintableName(names[j]);
    }
  }

  /** The result is "N/A" exactly when every category count is zero. */
  lemma NoFitIffAllZero(counts: seq<nat>)
    requires |counts| == |Taxonomy|
    ensures ClusterString(counts) == NoFit <==> forall j :: 0 <= j < |counts| ==> counts[j] == 0
  {
    var r := Ranked(counts);
    var names := Names(counts, r);
    if r == [] {
      assert forall j :: 0 <= j < |counts| ==> j !in r;
    } else {
      TaxonomyNames();
      JoinStartsWithFirst(names, Separator);
      var joined := Join(names, Separator);
      assert joined[0] == names[0][0];
      assert r[0] in r;
    }
  }

  /**
   When something matched, splitting the result at ", " gives back the
   category names, in ranked order.
   */
  lemma ClusterStringLists(counts: seq<nat>)
    requires |counts| == |Taxonomy|
    requires exists j :: 0 <= j < |counts| && counts[j] > 0
    ensures var r := Ranked(counts);
      |r| > 0 && Split(ClusterString(counts), Separator) == Names(counts, r)
  {
    var r := Ranked(counts);
    var j :| 0 <= j < |counts| && counts[j] > 0;
    assert j in r;
    var names := Names(counts, r);
    TaxonomyNames();
    JoinStartsWithFirst(names, Separator);
    SplitJoin(names, Separator);
  }

  /** Splitting a join gives the parts back when no part holds the separator's first character. */
  lemma {:induction false} SplitJoin(parts: seq<string>, sep: string)
    requires sep != [] && |parts| >= 1
    requires forall i :: 0 <= i < |parts| ==> sep[0] !in parts[i]
    ensures Split(Join(parts, sep), sep) == parts
    decreases |parts|
  {
    if |parts| == 1 {
      NoFirstCharNoOccurrence(parts[0], sep);
      SplitOfAbsent(parts[0], sep);
    } else {
      var s := Join(parts, sep);
      var p := parts[0];
      var rest := Join(parts[1..], sep);
      assert s == p + sep + rest;
      FirstOccurrenceAfter(p, sep, rest);
      assert s[..|p|] == p;
      assert s[|p| + |sep|..] == rest;
      SplitJoin(parts[1..], sep);
      assert parts == [p] + parts[1..];
    }
  }

  lemma NoFirstCharNoOccurrence(p: string, sep: string)
    requires sep != [] && sep[0] !in p
    ensures !Contains(p, sep)
  {
    forall i | 0 <= i <= |p|
      ensures !OccursAt(p, sep, i)
    {
      if i < |p| {
        assert p[i] in p;
      }
    }
  }

  lemma FirstOccurrenceAfter(p: string, sep: string, rest: string)
    requires sep != [] && sep[0] !in p
    ensures FindFrom(p + sep + rest, sep, 0) == Some(|p|)
  {
    var s := p + sep + rest;
    assert s[|p|..|p| + |sep|] == sep;
    assert OccursAt(s, sep, |p|);
    forall k | 0 <= k < |p|
      ensures !OccursAt(s, sep, k)
    {
      assert s[k] == p[k] && p[k] in p;
    }
  }

  function ClusterVideo(title: string): Video
  {
    Video("", title, "", 0, 0, 0)
  }

  /** One title can raise several categories: "AI Marketing Tips" counts for Marketing and for AI. */
  lemma SeveralCategoriesExample()
    ensures CategoryCount([ClusterVideo("AI Marketing Tips")], 0) == 1
    ensures CategoryCount([ClusterVideo("AI Marketing Tips")], 3) == 1
  {
    var v := ClusterVideo("AI Marketing Tips");
    var title := Lower(v.title);
    assert title == "ai marketing tips";
    assert OccursAt(title, "marketing", 3) && Contains(title, "marketing");
    assert OccursAt(title, "ai", 0) && Contains(title, "ai");
    assert "marketing" in Taxonomy[0].keywords && "ai" in Taxonomy[3].keywords;
    assert VideoMatches(v, Taxonomy[0].keywords);
    assert VideoMatches(v, Taxonomy[3].keywords);
    assert [v][..0] == [];
  }
}
