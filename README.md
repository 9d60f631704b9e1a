# Estate Explorer: recommender and radius search

This project models, in Dafny, the two pieces of real logic in Estate
Explorer's `recommend.py`.

* **Recommender** (`recommend_properties_with_scores`). It combines the
  three precomputed cosine-similarity matrices as
  `0.5 * sim1 + 0.8 * sim2 + 1 * sim3` and takes the row of the chosen
  property, found by `location_df.index.get_loc`. It pairs each score with its
  position and sorts the pairs by score, highest first. Python's `sorted` is
  stable, so equal scores stay in position order. The code drops ranked
  entry 0 and keeps the next `top_n`. It then looks up the names and the
  links, rounds the scores to three places, and renders each link as
  `[Visit Property](url)` or `No Link`.
* **Radius search** (the body of the "Find Properties Nearby" button). It
  keeps the properties whose distance in metres to the chosen landmark is
  strictly below `radius * 1000`. A missing (NaN) distance never passes this
  test. It sorts the survivors by distance and reports each as
  `round(metres / 1000, 2)` km. An empty result gives a warning, not an error.

Modules:

* `Base`: `Option`, `Result`, and the errors the code raises.
  * `ShapeMismatch` is numpy refusing to add two arrays.
  * `KeyNotFound` is a pandas `KeyError`.
  * `DuplicateKey` is a label that occurs twice in the index.
  * `PositionOutOfRange` is an `IndexError`.
* `PyBuiltins`: Python's slice `s[i:j]`, including clamping and negative
  bounds, and `round(x, n)`, which rounds half to even, on exact reals.
* `Ranking`: `list(enumerate(row))` and the stable descending sort. The sort
  is proved to be the unique ranked permutation.
* `Similarity`: the weights, the matrix combination, and `get_loc`.
* `Recommender`: the recommender as written. It also holds the corrected
  variant described under Findings.
* `RadiusSearch`: the mask filter, the ascending sort, and the report.

Some behaviour of the code may be unexpected. The model keeps it as written:

* The code has no error for `top_n < 1`. `top_n = 0` gives an empty table. A
  negative `top_n` counts from the end, as Python slicing does.
* The code has no error for a negative radius. The input widget has a
  minimum of 0 (`recommend.py:56`). With non-negative distances, a radius of 0
  finds nothing.
* The code does not break distance ties by property name. pandas'
  `sort_values` is not stable, so the model fixes the result only up to the
  order of equal distances. `RadiusSearch.SearchDistancesDetermined` shows
  that the distance column is the same for every admissible order.
* Distances are kept when strictly below the radius. The reported value is
  rounded, though, so it can equal the radius
  (`RadiusSearch.ReportedDistanceMayEqualRadius`).
* The code drops ranked entry 0 without checking that it is the chosen
  property (see Findings).
* The matrices are not validated on load. A shape mismatch only appears
  when numpy adds them, before the name is looked up.

## Model

| member | source | states |
|---|---|---|
| PyBuiltins.Slice | recommend.py:33-34 | `s[i:j]` is the sub-list between the clamped bounds (negative bounds count from the end), or empty when they cross |
| PyBuiltins.SliceNonNegative | recommend.py:33-34 | with `0 <= i <= j` the slice is `s[min(i,n)..min(j,n)]` and has that many elements |
| PyBuiltins.SliceTail | recommend.py:33-34 | slicing the tail of a list equals slicing the list one place further on |
| PyBuiltins.RoundHalfEven | recommend.py:40 | the result is within 1/2 of the input, and an exact half goes to the even neighbour |
| PyBuiltins.Round3 | recommend.py:40 | `round(x, 3)` on exact reals: the result is within 0.0005 of x |
| PyBuiltins.Round3Monotone | recommend.py:40 | `round(·, 3)` never reverses the order of two scores |
| PyBuiltins.Round3Exact | recommend.py:40 | a score with at most three decimals is unchanged by `round(·, 3)` |
| PyBuiltins.Round2 | recommend.py:70 | `round(x, 2)` on exact reals: the result is within 0.005 of x |
| PyBuiltins.Round2Monotone | recommend.py:70 | `round(·, 2)` never reverses the order of two distances |
| PyBuiltins.Round2Exact | recommend.py:70 | a distance with at most two decimals is unchanged by `round(·, 2)` |
| Ranking.Enumerate | recommend.py:28-30 | `list(enumerate(row))`: entry i is the pair (i, row[i]) |
| Ranking.InsertDesc | recommend.py:31 | inserting into a non-increasing list keeps it non-increasing and adds exactly that entry |
| Ranking.SortDesc | recommend.py:31 | the sorted list is a permutation of the input with non-increasing scores |
| Ranking.SortDescRanked | recommend.py:31 | stability: sorting pairs in position order puts equal scores in increasing position |
| Ranking.Rank | recommend.py:28-31 | the ranking has one entry per position of the row, in non-increasing score order (`RankIsRanking` and `RankUnique` add the rest) |
| Ranking.RankIsRanking | recommend.py:28-31 | the ranking of a row is a permutation of its (position, score) pairs, ordered by score and then by position |
| Ranking.RankMembers | recommend.py:28-31 | a pair is in the ranking exactly when it is a position of the row with that position's score |
| Ranking.RankedUnique | recommend.py:31 | two ranked lists with the same elements are equal |
| Ranking.RankUnique | recommend.py:31 | any ranked permutation of the row's pairs is the one `sorted` returns: the order is fully determined |
| Similarity.CombineRows | recommend.py:27 | entry j is 0.5·r1[j] + 0.8·r2[j] + 1·r3[j] |
| Similarity.Combine | recommend.py:27 | the weighted sum is defined exactly when the three shapes agree; each entry is the weighted sum; otherwise ShapeMismatch |
| Similarity.GetLoc | recommend.py:29 | succeeds exactly for a name that occurs once, with its only position; otherwise KeyNotFound (absent) or DuplicateKey (repeated) |
| Recommender.SourceRow | recommend.py:27-29 | Ok exactly when the shapes agree and the name has a unique in-range position p; the row's entry j is the weighted sum at (p, j); errors come in the source's order |
| Recommender.NamesAt | recommend.py:35 | `index[positions]`: Ok exactly when every position is in range, with the name at each position; otherwise PositionOutOfRange |
| Recommender.LinksOf | recommend.py:36 | `df.loc[names, 'Link']`: Ok exactly when every name is in the table, with each name's link; otherwise KeyNotFound |
| Recommender.LinkCell | recommend.py:43-45 | the cell is "No Link" exactly when the link is missing; otherwise it is `[Visit Property](` then the url then `)` |
| Recommender.LinkCellRoundTrip | recommend.py:43-45 | the rendered cell determines the link: a link and "No Link" are never confused, and the url is recovered |
| Recommender.Describe | recommend.py:35-45 | Ok exactly when every selected position has a name with a link entry; row k then has that name, the score rounded to 3 places and the rendered link; an out-of-range position is an IndexError before any KeyError |
| Recommender.Recommend | recommend.py:26-46 | source errors propagate; otherwise row k describes the k-th selected entry of the ranked row |
| Recommender.Select | recommend.py:33-34 | `sorted_scores[1 : top_n + 1]` for every `top_n`: entry k is the entry ranked k + 1, so the first-ranked is skipped, and a non-empty selection is shorter than the row |
| Recommender.SelectIsRankedTail | recommend.py:33-34 | with `top_n >= 0` the selection is ranked positions 1 .. top_n, min(top_n, N − 1) entries |
| Recommender.SelectOmitsFirst | recommend.py:33-34 | for every `top_n` the first-ranked position is never selected |
| Recommender.SelectRanked | recommend.py:31-34 | the selection keeps the ranking's order, and each entry is a position of the row with its score |
| Recommender.RankDistinctPositions | recommend.py:28-31 | no position occurs twice in the ranking |
| Recommender.SelectIsTop | recommend.py:31-34 | every position left out, other than the first-ranked one, ranks after every selected entry |
| Recommender.RankHead | recommend.py:31 | position p is ranked first exactly when it comes before every other position (higher score, or equal score and lower position) |
| Recommender.RecommendSucceeds | recommend.py:26-46 | on loaded-shape data the call succeeds exactly for a unique name; an unknown name is a KeyError; for `top_n >= 0` a success has min(top_n, N − 1) rows |
| Recommender.RecommendDefault | recommend.py:80 | `run()` calls with the default top_n of 5 (line 26): a unique name gets 5 rows, or N − 1 when there are fewer than 6 properties |
| Recommender.RecommendScoresNonIncreasing | recommend.py:33-40 | the result's scores never increase from row to row |
| Recommender.RecommendScoresAreCombined | recommend.py:27-41 | each row's score is the rounded weighted similarity, in the source's row, of a position carrying that row's name |
| Recommender.RecommendOmitsSourceWhenAhead | recommend.py:31-35 | when the source comes before every other position in its own row, no result row names it |
| Recommender.DescribeOne | recommend.py:38-45 | describing one entry whose score has three decimals gives its name, that score and its link cell |
| Recommender.FourSourceRow | recommend.py:27-29 | in the four-property example A's combined row is [2.3, 1.32, 0, 0] |
| Recommender.FourRank | recommend.py:31 | that row ranks A, B, C, D |
| Recommender.FourRecommendsB | recommend.py:26-46 | `recommend("A", 1)` returns B with score 1.32 and its rendered link |
| Recommender.SourceRecommendedToItself | recommend.py:31-35 | as written, for two identical listings, "B" is recommended to itself (see Findings) |
| Recommender.WithoutPosition | recommend.py:33-34 | corrected selection step: the members are the ranking's entries other than position p; with distinct positions one entry goes |
| Recommender.WithoutPositionRanked | recommend.py:33-34 | removing an entry keeps the ranking's order |
| Recommender.SelectExcludingSelf | recommend.py:33-34 | corrected selection: a prefix of the ranking with the source's position removed, so every entry is ranked and none is the source |
| Recommender.SelectExcludingSelfSpec | recommend.py:33-34 | corrected selection: never the source, in ranking order, min(top_n, N − 1) entries |
| Recommender.SelectExcludingSelfAgrees | recommend.py:33-34 | when the source heads its own ranking, the corrected selection equals the one the code makes |
| Recommender.RecommendExcludingSelf | recommend.py:26-46 | corrected recommender: as `Recommend`, but over the selection without the source's own position |
| Recommender.RecommendExcludingSelfOmitsSource | recommend.py:33-35 | the corrected recommender never names the source |
| Recommender.TwinRecommendedExcludingSelf | recommend.py:33-35 | on the two identical listings the corrected recommender gives "B" its twin "A" |
| RadiusSearch.WithinFrom | recommend.py:61-62 | the rows from a position on whose distance is recorded and below the threshold, each once, in row order |
| RadiusSearch.Within | recommend.py:61-62 | the boolean-mask filter: an entry is in it exactly when its distance is recorded and strictly below the threshold, with its own name; positions increase; nothing passes means empty |
| RadiusSearch.InsertAsc | recommend.py:63 | inserting into an ascending list keeps it ascending and adds exactly that entry |
| RadiusSearch.SortAsc | recommend.py:63 | the sorted list is an ascending permutation of the input |
| RadiusSearch.Search | recommend.py:61-63 | an unknown landmark is a KeyError; otherwise the result is ascending and a permutation of the rows within radius · 1000 m |
| RadiusSearch.SearchMembers | recommend.py:61-62 | the result holds exactly the rows with a recorded distance strictly below radius · 1000 m, each with its own name and distance, and no row twice |
| RadiusSearch.AscendingSameDistances | recommend.py:63 | two ascending orderings of the same entries list the same distances in the same order |
| RadiusSearch.SearchDistancesDetermined | recommend.py:63 | whatever order the unstable sort gives equal distances, the distance column is the model's |
| RadiusSearch.Report | recommend.py:65-70 | a warning exactly when the result is empty; otherwise one line per entry, in order, with `round(metres / 1000, 2)` km |
| RadiusSearch.ReportAscending | recommend.py:63-70 | reported kilometres never decrease, and each is at most the radius plus 0.005 |
| RadiusSearch.ReportOrdered | recommend.py:68-69 | an ascending result reports non-decreasing kilometres |
| RadiusSearch.ReportBelow | recommend.py:68-69 | distances below the radius report at most the radius plus 0.005 km |
| RadiusSearch.ZeroRadiusFindsNothing | recommend.py:54-66 | with non-negative distances, radius 0 gives an empty result and the warning, not an error |
| RadiusSearch.MetroSearch | recommend.py:61-63 | Metro at 800 m, 1500 m, NaN and 2000 m, radius 1.6 km: P1 then P2 |
| RadiusSearch.MetroWithinOnePointSix | recommend.py:61-70 | the same search reports P1 at 0.8 km and P2 at 1.5 km |
| RadiusSearch.ReportedDistanceMayEqualRadius | recommend.py:62-70 | 1599 m is inside 1.6 km and is reported as 1.6 km |

## Left out

- Loading the pickles and the CSV (`recommend.py:8-15`) is file I/O. The model takes the loaded tables as values: `Recommender.Catalogue` and `RadiusSearch.LocationTable`.
- The Streamlit page is not modelled: title, headers, select boxes, number input, buttons, `st.success`, the markdown line format and `to_markdown`. The model returns the rows the page would render.
- Analytics.py, dashboard.py and RealEstate.py are not part of this model. They are charts, page navigation, a download and a foreign price model.
- Floating point is not modelled. Scores, distances and rounding work on exact reals, so a binary representation error near a rounding half-way point is not captured.
- NaN in the similarity matrices is not modelled. A NaN score would make Python's sort order ill-defined, and every similarity is a real here. NaN distances and missing links are modelled as `None`.
- Similarity.Combine: numpy broadcasting of differently shaped but compatible arrays is not modelled. Any shape difference is `ShapeMismatch`.
- Similarity.GetLoc: a repeated name makes pandas return a slice or mask instead of a position. The code cannot use that, and the model reports it as `DuplicateKey` without modelling what numpy would do with it.
- Recommender.LinksOf: the apartments table is a map with one link per name. A repeated `PropertyName` in the CSV, which would return several rows from `df.loc`, is not modelled.
- RadiusSearch.Search: pandas' own order among equal distances is not modelled. The model's insertion sort is one admissible order. `SearchDistancesDetermined` shows that the rows found and the distance column do not depend on the choice. Names at equal distance may be reported in any order, and the model's order is only one of them.
- RadiusSearch.Search requires every landmark column to have one cell per row, which every DataFrame has.

## Findings

| source | as written | input that shows it | evidently intended | confidence | as-written member | corrected member |
|---|---|---|---|---|---|---|
| recommend.py:33-34 | `sorted_scores[1 : top_n + 1]` always skips ranked entry 0, assuming it is the chosen property. A stable sort puts an earlier property that ties with the source's own score first, so that property is skipped and the source is recommended to itself | two identical listings "A", "B" (every similarity 1.0), `recommend("B", 1)`: returns "B" itself with score 2.3 | skip the chosen property's own position, whatever its rank, and return "A" | not executed | Recommender.SourceRecommendedToItself | Recommender.RecommendExcludingSelfOmitsSource |

`Recommender.Recommend` models the code as written. The corrected
`Recommender.RecommendExcludingSelf` removes the source's own position from
the ranking and then takes the first `top_n` entries. Its properties are
proved in `Recommender.SelectExcludingSelfSpec` (never the source, in ranking
order, min(top_n, N − 1) entries) and
`Recommender.RecommendExcludingSelfOmitsSource`.
`Recommender.SelectExcludingSelfAgrees` shows that the two agree whenever the
source heads its own ranking.
