/**
 The dashboard's own helpers (`dashboard.py`): a stricter channel-link
 parser that recognises only `youtube.com/channel/<id>` and
 `youtube.com/@<handle>` links and rejects everything else, and the exact
 (unrounded) average of the view counts.
 */
module Dashboard {
  import opened Text
  import opened Videos
  import App

  datatype Error =
    | UnsupportedUrl   // the `ValueError` for any other link
    | NoChannelItems   // the handle lookup answered with no channel

  datatype Result<T> = Ok(value: T) | Err(error: Error)

  const ChannelMarker := "youtube.com/channel/"
  const HandleMarker := "youtube.com/@"

  /**
   `u` is the text of `t` up to its first `/` or its first `@`, whichever
   comes first: the handle `url.split("@")[1].split("/")[0]` cuts out of the
   text after the first `@`.
   */
  predicate HandleSegment(u: string, t: string)
  {
    IsPrefix(u, t) && '/' !in u && '@' !in u && (u == t || t[|u|] == '/' || t[|u|] == '@')
  }

  /** The text after the first `@` of `url`. */
  function AfterAt(url: string): (t: string)
    requires '@' in url
    ensures IsSuffix(t, url) && |t| < |url| && url[|url| - |t| - 1] == '@'
    ensures forall k :: 0 <= k < |url| - |t| - 1 ==> url[k] != '@'
  {
    ContainsChar(url, '@');
    var i := FindFrom(url, "@", 0).value;
    assert url[i] == url[i..i + 1][0];
    forall k | 0 <= k < i
      ensures url[k] != '@'
    {
      assert url[k..k + 1] == [url[k]];
      assert !OccursAt(url, "@", k);
    }
    url[i + 1..]
  }

  /** `url.split("@")[1].split("/")[0]`. */
  function Handle(url: string): (h: string)
    requires '@' in url
    ensures HandleSegment(h, AfterAt(url))
  {
    ContainsChar(url, '@');
    var t := AfterAt(url);
    var after := SecondPart(url, "@");
    var h := FirstPart(after, "/");
    FirstPartOneChar(t, '@');
    FirstPartOneChar(after, '/');
    PrefixKeepsAbsence(h, after, '@');
    PrefixOfPrefix(h, after, t);
    assert h != after ==> t[|h|] == after[|h|];
    h
  }

  /** Only one text is a handle segment, so `Handle` is fully determined. */
  lemma HandleSegmentUnique(u: string, v: string, t: string)
    requires HandleSegment(u, t) && HandleSegment(v, t)
    ensures u == v
  {
    HandleSegmentLongest(u, v, t);
    HandleSegmentLongest(v, u, t);
  }

  lemma HandleSegmentLongest(u: string, v: string, t: string)
    requires HandleSegment(u, t) && HandleSegment(v, t)
    ensures |v| <= |u|
  {
    forall k | 0 <= k < |v|
      ensures v[k] == t[k] && v[k] in v
    {
      assert v[k] == t[..|v|][k];
    }
  }

  /**
   `u` is the text of `a` up to its first `/` or the start of its first
   `channel/`: the id `url.split("channel/")[1].split("/")[0]` cuts out of
   the text after the first `channel/`.
   */
  predicate ChannelSegment(u: string, a: string)
  {
    IsPrefix(u, a) && '/' !in u &&
    (forall j :: 0 <= j < |u| ==> !OccursAt(a, "channel/", j)) &&
    (u == a || a[|u|] == '/' || OccursAt(a, "channel/", |u|))
  }

  /** Only one text is a channel segment. */
  lemma ChannelSegmentUnique(u: string, v: string, a: string)
    requires ChannelSegment(u, a) && ChannelSegment(v, a)
    ensures u == v
  {
    ChannelSegmentLongest(u, v, a);
    ChannelSegmentLongest(v, u, a);
  }

  lemma ChannelSegmentLongest(u: string, v: string, a: string)
    requires ChannelSegment(u, a) && ChannelSegment(v, a)
    ensures |v| <= |u|
  {
    forall k | 0 <= k < |v|
      ensures v[k] == a[k] && v[k] in v
    {
      assert v[k] == a[..|v|][k];
    }
  }

  /**
   `extract_channel_id_from_url`. `lookup` is the platform's handle lookup:
   the ids of the channels it answers for a handle, in order.
   */
  function ExtractChannelId(url: string, lookup: string -> seq<string>): (r: Result<string>)
    ensures Contains(url, ChannelMarker) ==>
      r.Ok? && '/' !in r.value && !Contains(r.value, "channel/")
    ensures !Contains(url, ChannelMarker) && Contains(url, HandleMarker) ==>
      '@' in url && (r.Ok? <==> lookup("@" + Handle(url)) != []) &&
      (r.Ok? ==> r.value == lookup("@" + Handle(url))[0]) &&
      (r.Err? ==> r.error == NoChannelItems)
    ensures !Contains(url, ChannelMarker) && !Contains(url, HandleMarker) ==> r == Err(UnsupportedUrl)
  {
    if Contains(url, ChannelMarker) then
      MarkerHolds(url, ChannelMarker, "channel/", 12);
      var id := FirstPart(SecondPart(url, "channel/"), "/");
      ContainsChar(id, '/');
      App.PrefixFree(id, SecondPart(url, "channel/"), "channel/");
      Ok(id)
    else if Contains(url, HandleMarker) then
      MarkerHolds(url, HandleMarker, "@", 12);
      ContainsChar(url, '@');
      var items := lookup("@" + Handle(url));
      if items == [] then Err(NoChannelItems) else Ok(items[0])
    else
      Err(UnsupportedUrl)
  }

  /** A marker that contains `part` at `at` brings `part` into every text that contains it. */
  lemma MarkerHolds(url: string, marker: string, part: string, at: nat)
    requires Contains(url, marker) && at + |part| <= |marker| && marker[at..at + |part|] == part
    ensures Contains(url, part)
  {
    assert OccursAt(marker, part, at);
    ContainsTrans(url, marker, part);
  }

  lemma PrefixKeepsAbsence(h: string, s: string, c: char)
    requires IsPrefix(h, s) && c !in s
    ensures c !in h
  {
    forall i | 0 <= i < |h|
      ensures h[i] != c
    {
      assert h[i] == s[i] && s[i] in s;
    }
  }

  lemma PrefixOfPrefix(h: string, s: string, t: string)
    requires IsPrefix(h, s) && IsPrefix(s, t)
    ensures IsPrefix(h, t)
  {
    assert t[..|h|] == s[..|h|];
  }

  /**
   A channel link yields the channel segment of the text that follows the
   first `channel/`, and never consults the handle lookup.
   */
  lemma ChannelBranch(url: string, lookup: string -> seq<string>, other: string -> seq<string>)
    requires Contains(url, ChannelMarker)
    ensures Contains(url, "channel/")
    ensures ChannelSegment(ExtractChannelId(url, lookup).value, url[FindFrom(url, "channel/", 0).value + 8..])
    ensures ExtractChannelId(url, lookup) == ExtractChannelId(url, other)
  {
    MarkerHolds(url, ChannelMarker, "channel/", 12);
    var a := url[FindFrom(url, "channel/", 0).value + 8..];
    var piece := SecondPart(url, "channel/");
    var id := FirstPart(piece, "/");
    FirstPartOneChar(piece, '/');
    PrefixOfPrefix(id, piece, a);
    assert id != piece ==> a[|id|] == piece[|id|];
  }

  /** For every channel link, the answer is the one channel segment after the first `channel/`. */
  lemma ChannelIdIsSegment(url: string, lookup: string -> seq<string>, u: string)
    requires Contains(url, ChannelMarker)
    ensures Contains(url, "channel/")
    ensures ChannelSegment(u, url[FindFrom(url, "channel/", 0).value + 8..]) ==>
      ExtractChannelId(url, lookup) == Ok(u)
  {
    ChannelBranch(url, lookup, lookup);
    var a := url[FindFrom(url, "channel/", 0).value + 8..];
    if ChannelSegment(u, a) {
      ChannelSegmentUnique(u, ExtractChannelId(url, lookup).value, a);
    }
  }

  /**
   For every handle link, the lookup is asked for `@` followed by the one
   handle segment after the first `@`, and its first id is the answer.
   */
  lemma HandleIdIsSegment(url: string, lookup: string -> seq<string>, u: string)
    requires !Contains(url, ChannelMarker) && Contains(url, HandleMarker)
    ensures '@' in url
    ensures HandleSegment(u, AfterAt(url)) ==>
      var items := lookup("@" + u);
      ExtractChannelId(url, lookup) == if items == [] then Err(NoChannelItems) else Ok(items[0])
  {
    MarkerHolds(url, HandleMarker, "@", 12);
    ContainsChar(url, '@');
    if HandleSegment(u, AfterAt(url)) {
      HandleSegmentUnique(u, Handle(url), AfterAt(url));
    }
  }

  /**
   `https://www.youtube.com/channel/<id>` followed by nothing or by a path
   gives `<id>`, when that `channel/` is the first one in the link.
   */
  lemma ChannelLink(p: string, id: string, rest: string, lookup: string -> seq<string>)
    requires FindFrom(p + ChannelMarker + (id + rest), "channel/", 0) == Some(|p| + 12)
    requires !Contains(id + rest, "channel/")
    requires '/' !in id && (rest == [] || rest[0] == '/')
    ensures ExtractChannelId(p + ChannelMarker + (id + rest), lookup) == Ok(id)
  {
    var url := p + ChannelMarker + (id + rest);
    assert url[|p|..|p| + 20] == ChannelMarker;
    assert OccursAt(url, ChannelMarker, |p|);
    assert url[|p| + 20..] == id + rest;
    SplitOfAbsent(id + rest, "channel/");
    App.IdentifierPiece(id, rest);
  }

  /**
   `https://www.youtube.com/@<handle>` followed by nothing or by a path asks
   the lookup for `@<handle>` and answers its first channel.
   */
  lemma HandleLink(p: string, h: string, rest: string, lookup: string -> seq<string>)
    requires '@' !in p && '/' !in h && '@' !in h && (rest == [] || rest[0] == '/')
    requires !Contains(p + HandleMarker + (h + rest), ChannelMarker)
    ensures var r := ExtractChannelId(p + HandleMarker + (h + rest), lookup);
      var items := lookup("@" + h);
      (items == [] ==> r == Err(NoChannelItems)) && (items != [] ==> r == Ok(items[0]))
  {
    var url := p + HandleMarker + (h + rest);
    assert url[|p|..|p| + 13] == HandleMarker;
    assert OccursAt(url, HandleMarker, |p|);
    assert url[|p| + 12] == '@';
    assert '@' in url;
    ContainsChar(url, '@');
    FirstAtSign(p + "youtube.com/", h + rest);
    assert p + HandleMarker + (h + rest) == p + "youtube.com/" + "@" + (h + rest);
    assert url[|p| + 13..] == h + rest;
    HandleAfterAt(h, rest);
  }

  lemma FirstAtSign(q: string, t: string)
    requires '@' !in q
    ensures FindFrom(q + "@" + t, "@", 0) == Some(|q|)
  {
    var s := q + "@" + t;
    assert s[|q|..|q| + 1] == "@";
    assert OccursAt(s, "@", |q|);
    forall k | 0 <= k < |q|
      ensures !OccursAt(s, "@", k)
    {
      assert s[k] == q[k] && q[k] in q;
    }
  }

  /** After the first `@`, the handle runs up to the first `/`. */
  lemma HandleAfterAt(h: string, rest: string)
    requires '/' !in h && '@' !in h && (rest == [] || rest[0] == '/')
    ensures FirstPart(FirstPart(h + rest, "@"), "/") == h
  {
    var s := h + rest;
    var t := FirstPart(s, "@");
    if t == s {
      App.IdentifierPiece(h, rest);
    } else {
      assert OccursAt(s, "@", |t|);
      assert s[|t|] == s[|t|..|t| + 1][0] == '@';
      forall k | 0 <= k < |h|
        ensures s[k] != '@'
      {
        assert s[k] == h[k] && h[k] in h;
      }
      var k := |t| - |h|;
      assert s[..|t|] == h + rest[..k];
      App.IdentifierPiece(h, rest[..k]);
    }
  }

  // ---------------------------------------------------------------------
  // Average views (dashboard.py:75-76)
  // ---------------------------------------------------------------------

  /** `sum(views) / len(videos) if videos else 0`, with exact division. */
  function AverageViews(videos: seq<Video>): (r: real)
    ensures videos == [] ==> r == 0.0
    ensures videos != [] ==> r * (|videos| as real) == TotalViews(videos) as real
  {
    if videos == [] then 0.0 else TotalViews(videos) as real / (|videos| as real)
  }

  /** The mean lies between the smallest and the largest view count. */
  lemma AverageViewsBetween(videos: seq<Video>, lo: nat, hi: nat)
    requires videos != []
    requires forall v :: v in videos ==> lo <= v.views <= hi
    ensures lo as real <= AverageViews(videos) <= hi as real
  {
    SumOfBetween(videos, ViewsOf, lo, hi);
    MeanBetween(TotalViews(videos), |videos|, lo, hi);
  }

  lemma MeanBetween(s: nat, n: nat, lo: nat, hi: nat)
    requires n > 0 && n * lo <= s <= n * hi
    ensures lo as real <= s as real / n as real <= hi as real
  {
    assert (n * lo) as real == n as real * lo as real;
    assert (n * hi) as real == n as real * hi as real;
  }

  lemma AverageViewsPermutation(a: seq<Video>, b: seq<Video>)
    requires multiset(a) == multiset(b)
    ensures AverageViews(a) == AverageViews(b)
  {
    SumOfPermutation(a, b, ViewsOf);
    assert |a| == |multiset(a)| == |multiset(b)| == |b|;
  }

  /** The audit page's rounded mean is within one half of the dashboard's exact mean. */
  lemma AveragesAgree(videos: seq<Video>)
    ensures videos == [] ==> App.AvgViews(videos) as real == AverageViews(videos)
    ensures -0.5 <= App.AvgViews(videos) as real - AverageViews(videos) <= 0.5
  {
    if videos != [] {
      RoundedNearMean(App.AvgViews(videos), TotalViews(videos), |videos|);
    }
  }

  lemma RoundedNearMean(r: nat, s: nat, n: nat)
    requires n > 0 && 2 * App.Abs(r * n - s) <= n
    ensures -0.5 <= r as real - s as real / n as real <= 0.5
  {
    var p := r * n;
    assert p as real == r as real * n as real;
    NearKernel(r as real, s as real, n as real, p as real);
  }

  lemma NearKernel(r: real, s: real, n: real, p: real)
    requires n > 0.0 && p == r * n && -n <= 2.0 * (p - s) <= n
    ensures -0.5 <= r - s / n <= 0.5
  {
    var g := r - s / n;
    assert g * n == p - s;
    HalfOf(g, n, p - s);
  }

  lemma HalfOf(g: real, n: real, d: real)
    requires n > 0.0 && g * n == d && -n <= 2.0 * d <= n
    ensures -0.5 <= g <= 0.5
  {
    assert (2.0 * g - 1.0) * n <= 0.0;
    assert (2.0 * g + 1.0) * n >= 0.0;
  }

  /** An example: views 100, 300 and 200 average to 200. */
  lemma AverageViewsExample()
    ensures AverageViews([App.WithViews(100), App.WithViews(300), App.WithViews(200)]) == 200.0
  {
    App.ExampleTotal();
  }
}
