# Creator-Evaluation: a verified model of the audit helpers

Creator-Evaluation is a small YouTube creator-audit tool with two Streamlit
front ends. `app.py` is the audit page. `dashboard.py` is a second, smaller
dashboard. This project models the pure logic both of them rely on and
proves properties of it:

- **Channel-link parsing.** `app.py` has a loose four-way heuristic:
  `@handle`, `/channel/<id>`, `user`/`c` paths, and anything else passed
  through unchanged. `dashboard.py` has a strict parser that accepts only
  `youtube.com/channel/<id>` and `youtube.com/@<handle>`. For a handle it
  asks the platform's handle lookup for the channel; any other link is an error.
- **Average views.** The audit page rounds the mean half to even, as
  Python's `round` does. The dashboard reports the exact mean.
- **Topic clusters.** Every video title, lower-cased, is matched against a
  fixed taxonomy of eight keyword lists. The matching categories are
  listed with the most frequent first, ties in taxonomy order, joined with
  `", "`. When nothing matched the result is `"N/A"`.
- **Top ten.** The ten most-viewed videos.

The model is split into these modules:

- `Text` (text.dfy): the Python string builtins the parsers use.
  - `split` modelled by `Split`, with `[0]`, `[1]` and `[-1]` of its result (`FirstPart`, `SecondPart`, `LastPart`).
  - `strip` modelled by `Strip`.
  - `replace(c, '')` modelled by `RemoveChar`.
  - `lower` modelled by `Lower`.
  - `join` modelled by `Join`.
  - `in` on strings modelled by `Contains`.
- `Videos` (videos.dfy): the video record and sums over a list of videos.
- `App` (app.dfy): the audit page's helpers.
- `Topics` (topics.dfy): the topic clustering, written as a counting loop and a stable sort.
- `Dashboard` (dashboard.dfy): the dashboard's helpers.

Modelling decisions:

- **Handle lookup.** It is a parameter, `lookup`, which maps the handle
  text to the list of channel ids the platform answers. An empty answer is
  the error `NoChannelItems`; in the Python code this is an `IndexError`.
  The unsupported-link `ValueError` is the error `UnsupportedUrl`.
- **Count table.** The dictionary of per-category counts is a sequence
  indexed by taxonomy position. That position is the dictionary's
  insertion order.
- **Topic ranking.** Python's `sorted` with key `-count` is stable,
  so it is modelled as an insertion sort that compares counts only. The
  model proves that such a sort lists equal counts in taxonomy order.
- **Clustering policy.** A video counts for every category it matches,
  and categories with equal counts keep taxonomy order.
- **Channel ids on the dashboard.** The code splits on `channel/` before
  it splits on `/`, so the id ends at the next `/` or at the next
  `channel/`, whichever comes first.
- **View counts.** These are natural numbers. The audit page's mean is
  `round(sum / len)`. The model computes it with exact integer arithmetic,
  rounding half to even.

## Model

| member | source | states |
|---|---|---|
| `Text.Split` | app.py:35 | `str.split` on a non-empty separator gives at least one piece |
| `Text.JoinSplit` | app.py:35 | joining the pieces of a split with the separator gives back the text |
| `Text.SplitPiecesFree` | app.py:38 | no piece of a split contains the separator |
| `Text.FirstPart` | app.py:38 | `split(sep)[0]` is the prefix before the first occurrence of the separator, or the whole text when there is none |
| `Text.LastPart` | app.py:35 | `split(sep)[-1]` is a suffix free of the separator, all of the text or preceded by a separator |
| `Text.LastPartOneChar` | app.py:35 | with a one-character separator `c`, `split(c)[-1]` is the text after the last `c`, or all of it |
| `Text.LastSegmentUnique` | app.py:35 | only one text is the part after the last `c` |
| `Text.FirstPartOneChar` | app.py:38 | with a one-character separator `c`, `split(c)[0]` is the text before the first `c`, or all of it |
| `Text.FirstSegmentUnique` | app.py:38 | only one text is the part before the first `c` |
| `Text.SecondPart` | dashboard.py:11 | `split(sep)[1]` is the first piece of the text after the first separator |
| `Text.Strip` | app.py:35 | `strip()` removes only whitespace from both ends and leaves no whitespace at either end |
| `Text.StripIdempotent` | app.py:35 | stripping twice equals stripping once |
| `Text.RemoveChar` | app.py:35 | `replace(c, '')` removes every `c` and keeps every other character with its multiplicity |
| `Text.RemoveCharAppend` | app.py:35 | removing `c` from a concatenation removes it from each part and keeps them in order |
| `Text.RemoveCharOne` | app.py:35 | on one character, removal drops a `c` and keeps anything else |
| `Text.RemoveCharAbsent` | app.py:35 | `replace(c, '')` on a text without `c` changes nothing |
| `Text.Lower` | app.py:91 | `lower()` keeps the length, leaves no capital letter and agrees letter by letter up to case |
| `App.ExtractChannelId` | app.py:33-41 | the four branches in order: an `@` link gives the text after the last `/` of the stripped link, with `@` removed; a `channel` link gives the text before the first `/` of a suffix that follows a `/channel/` occurrence and holds none, or of all of the link when `/channel/` is absent; a `user`/`c` link gives the text after the last `/`; any other text comes back unchanged |
| `App.ExtractChannelIdBySegment` | app.py:34-35 | for every `@` link and every `user`/`c` link, the answer is determined by the last `/`-segment |
| `App.ExtractChannelIdByChannelPiece` | app.py:37-38 | for every `channel` link, the answer is determined by the text before the first `/` of the last `/channel/` piece |
| `App.HandleLink` | app.py:34-35 | a link ending in `/@<handle>` gives exactly the handle |
| `App.ChannelLink` | app.py:37-38 | a link whose only `/channel/` is followed by `<id>` and nothing or a path gives exactly `<id>` |
| `App.RoundHalfEven` | app.py:76 | the result is within one half of `num/den`, and even on an exact tie |
| `App.RoundingUnique` | app.py:76 | only one integer meets those two conditions |
| `App.AvgViews` | app.py:75-76 | 0 for no videos, otherwise the mean total views rounded half to even |
| `App.AvgViewsBetween` | app.py:75-76 | the average lies between the smallest and the largest view count |
| `App.AvgViewsPermutation` | app.py:75-76 | the average does not depend on the order of the videos |
| `App.AvgViewsExample` | app.py:75-76 | views 100, 300 and 200 average to 200 |
| `App.InsertByViews` | app.py:190 | insertion adds exactly that element to the list |
| `App.InsertByViewsSorted` | app.py:190 | inserting into a list sorted by views keeps it sorted |
| `App.SortByViews` | app.py:190 | sorting by views descending is a permutation and is sorted |
| `App.TopVideos` | app.py:190 | up to ten videos, sorted by views descending, taken from the input, none of the remaining videos more viewed than any shown |
| `Topics.CategoryCounts` | app.py:79-89 | one count per taxonomy category, in dictionary order |
| `Topics.CountClusters` | app.py:89-94 | the nested loop fills each category's count with the number of videos whose lower-cased title contains one of its keywords |
| `Topics.InsertByCountOrdered` | app.py:95 | inserting a later category after the earlier ones keeps the list ranked by count with ties in taxonomy order |
| `Topics.StableSortByCount` | app.py:95 | sorting by `-count` is a permutation of the categories |
| `Topics.StableSortOrdered` | app.py:95 | sorting categories given in taxonomy order ranks them by count, equal counts in taxonomy order |
| `Topics.KeepPositive` | app.py:95 | the filter keeps exactly the categories with a positive count, in order |
| `Topics.Ranked` | app.py:95 | the printed categories are exactly those that matched, each once, by non-increasing count, ties in taxonomy order |
| `Topics.GetTopicClusters` | app.py:78-95 | the result is the ranked list, and is `"N/A"` exactly when no title matches any keyword |
| `Topics.NoFitIffAllZero` | app.py:95 | the printed text is `"N/A"` exactly when every count is zero |
| `Topics.ClusterStringLists` | app.py:95 | when something matched, splitting the text at `", "` gives back the ranked category names |
| `Topics.SplitJoin` | app.py:95 | splitting a join gives the parts back when no part holds the separator's first character |
| `Topics.CountZeroIffNoMatch` | app.py:92-94 | a category's count is zero exactly when no video's title matches it |
| `Topics.CategoryCountBounded` | app.py:92-94 | a category counts at most one per video |
| `Topics.ClustersPermutation` | app.py:78-95 | reordering the videos changes neither the counts nor the printed clusters |
| `Topics.SeveralCategoriesExample` | app.py:90-94 | "AI Marketing Tips" counts once for Marketing and once for AI |
| `Topics.TaxonomyNames` | app.py:79-88 | every category name is non-empty, does not start with `N` and has no comma |
| `Dashboard.AfterAt` | dashboard.py:15 | the text after the first `@` of the link |
| `Dashboard.Handle` | dashboard.py:15 | the handle is the text after the first `@` up to the next `/` or `@`, or to the end |
| `Dashboard.HandleSegmentUnique` | dashboard.py:15 | only one text meets the handle's description |
| `Dashboard.ChannelSegmentUnique` | dashboard.py:11 | only one text is the id part up to the next `/` or `channel/` |
| `Dashboard.ExtractChannelId` | dashboard.py:6-22 | a `youtube.com/channel/` link succeeds with a `/`-free id; otherwise a `youtube.com/@` link answers the lookup's first channel for `@<handle>`, or `NoChannelItems` when there is none; any other link is `UnsupportedUrl` |
| `Dashboard.ChannelBranch` | dashboard.py:10-11 | the id is the text after the first `channel/` up to the next `/` or the next `channel/`, and the lookup is never consulted |
| `Dashboard.ChannelIdIsSegment` | dashboard.py:10-11 | for every channel link, the answer is exactly that channel segment |
| `Dashboard.HandleIdIsSegment` | dashboard.py:14-20 | for every handle link, the lookup is asked for `@` plus exactly the handle segment, and its first id, or `NoChannelItems`, is the answer |
| `Dashboard.ChannelLink` | dashboard.py:10-11 | `.../youtube.com/channel/<id>` followed by nothing or a path gives `<id>` |
| `Dashboard.HandleLink` | dashboard.py:14-20 | `.../youtube.com/@<handle>` followed by nothing or a path asks the lookup for `@<handle>` and answers its first channel |
| `Dashboard.AverageViews` | dashboard.py:75-76 | 0 for no videos, otherwise the exact mean: times the count it gives the total views |
| `Dashboard.AverageViewsBetween` | dashboard.py:75-76 | the mean lies between the smallest and the largest view count |
| `Dashboard.AverageViewsPermutation` | dashboard.py:75-76 | the mean does not depend on the order of the videos |
| `Dashboard.AveragesAgree` | dashboard.py:76 | both averages give 0 for no videos, and the audit page's rounded mean is within one half of the dashboard's exact mean |
| `Dashboard.AverageViewsExample` | dashboard.py:75-76 | views 100, 300 and 200 average to exactly 200 |

## Left out

- Every call to the YouTube Data API, SerpAPI and OpenAI is left out.
  That covers both `get_channel_metadata` functions, both
  `get_recent_videos` functions, the paging loop in dashboard.py and
  `get_brand_safety`. These calls are network I/O and foreign SDKs. The
  handle lookup in dashboard.py remains only as the `lookup` parameter.
- The Streamlit pages are left out: the input widgets, the charts, the
  CPV pricing table and the time series. These are UI.
- The `urlparse` call (app.py:36) is left out. Its result is unused, but
  it raises `ValueError` on some malformed hosts. One example is a host
  with an unbalanced `[` or `]`. For such a link without `@`, the model
  returns a value where the source raises.
- The `build(...)` service object (dashboard.py:7) is left out. It does
  not affect any result.
- `App.AvgViews`: models `round(sum / len)` on exact rationals. For totals
  from about 2^52 on, the double `sum / len` can land exactly on a half
  when the exact mean is near one, and `round` then settles it by the tie
  rule. Three videos totalling 3 * 2^51 + 2 are an example: Python gives
  an even result one below the model's.
- `Dashboard.AverageViews`: models the division as exact real arithmetic,
  not IEEE double precision. The empty case is `0.0`, where Python answers
  the integer `0`.
- `App.TopVideos`: pandas' default sort is not stable, so the order
  among videos with equal views is left unconstrained. The model sorts by
  insertion.
- `Text.Strip`: removes ASCII whitespace (space, tab through carriage
  return, and the separators 28 to 31). It does not remove the other
  Unicode whitespace Python's `strip` removes.
- `Text.Lower`: folds only the ASCII letters A-Z. Python's `lower` also
  folds other alphabets.
- A missing `items` key and a missing `id` key in the lookup's answer are
  not modelled separately. The lookup answers a list of ids, and an empty
  list stands for every failed lookup.
- `Text.LastPart`: when the separator can overlap itself (`/channel/`
  does, through its `/`), the contract admits a piece after any occurrence
  that leaves a separator-free suffix. It does not say that the cut is the
  last one the left-to-right scan makes. The function itself makes the
  scan's cuts, as `Text.Split` does. So `App.ExtractChannelId` and
  `App.ExtractChannelIdByChannelPiece` pin the `channel` answer through
  `LastPart`'s value, not through a closed description.
- `App.ExtractChannelId`: its `channel`-branch ensures inherit the
  `Text.LastPart` gap above. For `x/channel/channel/y` they admit `y` as
  well as the computed `channel`. `App.ExtractChannelIdByChannelPiece`
  states the exact answer.
