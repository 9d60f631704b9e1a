/**
 * `recommend_properties_with_scores(property_name, top_n=5)`
 * (recommend.py, lines 26-46): combine the three similarity rows of the
 * chosen property, rank all positions by combined score, drop the
 * first-ranked entry (taken to be the property itself), keep the next
 * `top_n`, and describe each by name, score rounded to three places, and a
 * rendered link cell.
 */
module Recommender {
  import opened Base
  import opened PyBuiltins
  import opened Ranking
  import opened Similarity

  /** The tables the recommender reads. */
  datatype Catalogue = Catalogue(
    sim1: Matrix,                      // cosine_sim1
    sim2: Matrix,                      // cosine_sim2
    sim3: Matrix,                      // cosine_sim3
    names: seq<string>,                // location_df.index: the name at each matrix position
    links: map<string, Option<string>> // the 'Link' column of the apartments table, by PropertyName
  )

  /** One row of the returned table: name, rounded score, rendered link cell. */
  datatype Recommendation = Recommendation(name: string, score: real, link: string)

  /** The `top_n` that `run()` uses (recommend.py, lines 26 and 80). */
  const DefaultTopN: int := 5

  /** Three |names| x |names| matrices and a link entry for every name: the shape the loaded data has. */
  ghost predicate WellFormed(c: Catalogue)
  {
    && |c.sim1| == |c.sim2| == |c.sim3| == |c.names|
    && (forall i :: 0 <= i < |c.names| ==> |c.sim1[i]| == |c.names|)
    && (forall i :: 0 <= i < |c.names| ==> |c.sim2[i]| == |c.names|)
    && (forall i :: 0 <= i < |c.names| ==> |c.sim3[i]| == |c.names|)
    && (forall n :: n in c.names ==> n in c.links)
  }

  /**
   * The combined similarity row of `name` with its position p
   * (recommend.py, lines 27-29): entry j is 0.5 * sim1[p][j] + 0.8 * sim2[p][j]
   * + 1 * sim3[p][j]. The matrices are combined before the name is looked up,
   * so a shape error is raised first; then an unknown or repeated name; then a
   * position past the last matrix row.
   */
  function SourceRow(c: Catalogue, name: string): (r: Result<(nat, seq<real>)>)
    ensures r.Ok? <==> SameShape(c.sim1, c.sim2) && SameShape(c.sim1, c.sim3) && GetLoc(c.names, name).Ok?
                       && GetLoc(c.names, name).value < |c.sim1|
    ensures !(SameShape(c.sim1, c.sim2) && SameShape(c.sim1, c.sim3)) ==> r == Err(ShapeMismatch)
    ensures SameShape(c.sim1, c.sim2) && SameShape(c.sim1, c.sim3) && GetLoc(c.names, name).Err? ==>
              r == Err(GetLoc(c.names, name).error)
    ensures r.Ok? ==> var (p, row) := r.value;
              && p < |c.names| && c.names[p] == name
              && (forall i :: 0 <= i < |c.names| && c.names[i] == name ==> i == p)
              && p < |c.sim1| && |row| == |c.sim1[p]|
              && forall j :: 0 <= j < |row| ==> row[j] == W1 * c.sim1[p][j] + W2 * c.sim2[p][j] + W3 * c.sim3[p][j]
  {
    match Combine(c.sim1, c.sim2, c.sim3)
    case Err(e) => Err(e)
    case Ok(m) =>
      match GetLoc(c.names, name)
      case Err(e) => Err(e)
      case Ok(p) => if p < |m| then Ok((p, m[p])) else Err(PositionOutOfRange(p))
  }

  /** `sorted_scores[1 : top_n + 1]` (recommend.py, lines 31-34). */
  function Select(row: seq<real>, topN: int): (r: seq<Scored>)
    ensures |r| < |row| || r == []
    ensures forall k :: 0 <= k < |r| ==> r[k] == Rank(row)[k + 1]
  {
    Slice(Rank(row), 1, topN + 1)
  }

  /** `location_df.index[top_indices]`: IndexError on a position past the end. */
  function NamesAt(names: seq<string>, sel: seq<Scored>): (r: Result<seq<string>>)
    ensures r.Ok? <==> forall k :: 0 <= k < |sel| ==> sel[k].index < |names|
    ensures r.Ok? ==> |r.value| == |sel| && forall k :: 0 <= k < |sel| ==> r.value[k] == names[sel[k].index]
    ensures r.Err? ==> r.error.PositionOutOfRange?
  {
    if sel == [] then Ok([])
    else if sel[0].index >= |names| then Err(PositionOutOfRange(sel[0].index))
    else
      match NamesAt(names, sel[1..])
      case Err(e) => Err(e)
      case Ok(rest) => Ok([names[sel[0].index]] + rest)
  }

  /** `df.loc[top_properties, 'Link']`: KeyError on a name the table does not hold. */
  function LinksOf(links: map<string, Option<string>>, props: seq<string>): (r: Result<seq<Option<string>>>)
    ensures r.Ok? <==> forall k :: 0 <= k < |props| ==> props[k] in links
    ensures r.Ok? ==> |r.value| == |props| && forall k :: 0 <= k < |props| ==> r.value[k] == links[props[k]]
    ensures r.Err? ==> r.error.KeyNotFound?
  {
    if props == [] then Ok([])
    else if props[0] !in links then Err(KeyNotFound(props[0]))
    else
      match LinksOf(links, props[1..])
      case Err(e) => Err(e)
      case Ok(rest) => Ok([links[props[0]]] + rest)
  }

  const LinkPrefix: string := "[Visit Property]("
  const NoLink: string := "No Link"

  /** The link column's cell (recommend.py, lines 43-45). */
  function LinkCell(url: Option<string>): (cell: string)
    ensures cell == NoLink <==> url.None?
    ensures url.Some? ==> |cell| == |LinkPrefix| + |url.value| + 1
    ensures url.Some? ==> cell[..|LinkPrefix|] == LinkPrefix && cell[|LinkPrefix|..|cell| - 1] == url.value && cell[|cell| - 1] == ')'
  {
    match url
    case Some(u) => LinkPrefix + u + ")"
    case None => NoLink
  }

  /** Reads a link cell back: `Some(url)` for a rendered link, `None` for "No Link". */
  function ParseLinkCell(cell: string): Option<Option<string>>
  {
    if cell == NoLink then Some(None)
    else if |cell| >= |LinkPrefix| + 1 && cell[..|LinkPrefix|] == LinkPrefix && cell[|cell| - 1] == ')' then
      Some(Some(cell[|LinkPrefix|..|cell| - 1]))
    else None
  }

  /** The rendered cell determines the link: a present link and "No Link" are never confused. */
  lemma LinkCellRoundTrip(url: Option<string>)
    ensures ParseLinkCell(LinkCell(url)) == Some(url)
  {
    if url.Some? {
      var cell := LinkCell(url);
      assert cell[0] == '[' && NoLink[0] == 'N';
      assert cell[..|LinkPrefix|] == LinkPrefix;
      assert cell[|LinkPrefix|..|cell| - 1] == url.value;
    }
  }

  /**
   * Row `row` of the result describes the selected entry `e`: the name at its
   * position, its score rounded to three places, and the link cell of that name.
   */
  predicate Describes(c: Catalogue, e: Scored, row: Recommendation)
  {
    && e.index < |c.names| && row.name == c.names[e.index]
    && row.score == Round3(e.score)
    && row.name in c.links && row.link == LinkCell(c.links[row.name])
  }

  /**
   * The names at the selected positions, their links, and the result table
   * (recommend.py, lines 36-45). A position past the end of the index raises
   * IndexError first; a name the apartments table does not hold raises KeyError.
   */
  function Describe(c: Catalogue, sel: seq<Scored>): (r: Result<seq<Recommendation>>)
    ensures r.Ok? <==> forall k :: 0 <= k < |sel| ==> sel[k].index < |c.names| && c.names[sel[k].index] in c.links
    ensures r.Ok? ==> |r.value| == |sel| && forall k :: 0 <= k < |sel| ==> Describes(c, sel[k], r.value[k])
    ensures r.Err? && (forall k :: 0 <= k < |sel| ==> sel[k].index < |c.names|) ==> r.error.KeyNotFound?
    ensures r.Err? && !(forall k :: 0 <= k < |sel| ==> sel[k].index < |c.names|) ==> r.error.PositionOutOfRange?
  {
    match NamesAt(c.names, sel)
    case Err(e) => Err(e)
    case Ok(props) =>
      match LinksOf(c.links, props)
      case Err(e) => Err(e)
      case Ok(urls) =>
        Ok(seq(|sel|, k requires 0 <= k < |sel| => Recommendation(props[k], Round3(sel[k].score), LinkCell(urls[k]))))
  }

  /**
   * `recommend_properties_with_scores(name, topN)` as written: row k of the
   * result describes the k-th selected entry.
   */
  function Recommend(c: Catalogue, name: string, topN: int): (r: Result<seq<Recommendation>>)
    ensures SourceRow(c, name).Err? ==> r == Err(SourceRow(c, name).error)
    ensures SourceRow(c, name).Ok? ==>
              var sel := Select(SourceRow(c, name).value.1, topN);
              && (r.Ok? <==> forall k :: 0 <= k < |sel| ==> sel[k].index < |c.names| && c.names[sel[k].index] in c.links)
              && (r.Ok? ==> |r.value| == |sel| && forall k :: 0 <= k < |sel| ==> Describes(c, sel[k], r.value[k]))
  {
    match SourceRow(c, name)
    case Err(e) => Err(e)
    case Ok((_, row)) => Describe(c, Select(row, topN))
  }

  function Min(a: int, b: int): int
  {
    if a < b then a else b
  }

  /** With `top_n >= 0` the selection is ranked positions 1 .. top_n: min(top_n, N - 1) entries of N. */
  lemma SelectIsRankedTail(row: seq<real>, topN: int)
    requires topN >= 0
    ensures |row| > 0 ==> Select(row, topN) == Rank(row)[1..Min(topN + 1, |row|)]
    ensures |Select(row, topN)| == if |row| == 0 then 0 else Min(topN, |row| - 1)
  {
    SliceNonNegative(Rank(row), 1, topN + 1);
  }

  /** The selection keeps the ranking's order: scores never increase, equal scores by position. */
  lemma SelectRanked(row: seq<real>, topN: int)
    ensures Ranked(Select(row, topN))
    ensures forall k :: 0 <= k < |Select(row, topN)| ==>
              Select(row, topN)[k].index < |row| && Select(row, topN)[k].score == row[Select(row, topN)[k].index]
  {
    RankIsRanking(row);
    var r := Rank(row);
    var sel := Select(row, topN);
    var lo, hi := SliceBound(1, |r|), SliceBound(topN + 1, |r|);
    if lo < hi {
      assert sel == r[lo..hi];
      forall i, j | 0 <= i < j < |sel| ensures Before(sel[i], sel[j]) {
        assert sel[i] == r[lo + i] && sel[j] == r[lo + j];
      }
      forall k | 0 <= k < |sel| ensures sel[k].index < |row| && sel[k].score == row[sel[k].index] {
        assert sel[k] == r[lo + k];
        RankMembers(row, sel[k]);
      }
    }
  }

  /** Whatever `top_n` is, the first-ranked position is never selected. */
  lemma SelectOmitsFirst(row: seq<real>, topN: int)
    requires |row| > 0
    ensures forall k :: 0 <= k < |Select(row, topN)| ==> Select(row, topN)[k].index != Rank(row)[0].index
  {
    RankDistinctPositions(row);
    var r := Rank(row);
    var sel := Select(row, topN);
    var lo, hi := SliceBound(1, |r|), SliceBound(topN + 1, |r|);
    forall k | 0 <= k < |sel| ensures sel[k].index != r[0].index {
      assert lo == 1 && sel[k] == r[lo + k];
    }
  }

  /** Entries of a ranking have pairwise different positions. */
  lemma RankDistinctPositions(row: seq<real>)
    ensures forall i, j :: 0 <= i < j < |Rank(row)| ==> Rank(row)[i].index != Rank(row)[j].index
  {
    RankIsRanking(row);
    var r := Rank(row);
    forall i, j | 0 <= i < j < |r| ensures r[i].index != r[j].index {
      RankMembers(row, r[i]);
      RankMembers(row, r[j]);
      assert Before(r[i], r[j]);
    }
  }

  /**
   * The selection is the top of the ranking: every position other than the
   * first-ranked one that was left out ranks after every selected entry.
   */
  lemma SelectIsTop(row: seq<real>, topN: int, j: nat)
    requires topN >= 0 && j < |row|
    requires Rank(row)[0].index != j
    requires forall k :: 0 <= k < |Select(row, topN)| ==> Select(row, topN)[k].index != j
    ensures forall k :: 0 <= k < |Select(row, topN)| ==> Before(Select(row, topN)[k], Scored(j, row[j]))
  {
    RankIsRanking(row);
    SelectIsRankedTail(row, topN);
    var r := Rank(row);
    var sel := Select(row, topN);
    var h := Min(topN + 1, |row|);
    RankMembers(row, Scored(j, row[j]));
    var q :| 0 <= q < |r| && r[q] == Scored(j, row[j]);
    assert forall m :: 1 <= m < h ==> sel[m - 1] == r[m];
    assert q >= h;
    forall k | 0 <= k < |sel| ensures Before(sel[k], Scored(j, row[j])) {
      assert sel[k] == r[k + 1];
    }
  }

  /**
   * Position p heads the ranking exactly when it comes before every other
   * position: every earlier position scores strictly less, and no later one
   * scores more.
   */
  lemma RankHead(row: seq<real>, p: nat)
    requires p < |row|
    ensures Rank(row)[0].index == p <==>
              forall j :: 0 <= j < |row| && j != p ==> Before(Scored(p, row[p]), Scored(j, row[j]))
  {
    RankIsRanking(row);
    var r := Rank(row);
    RankMembers(row, r[0]);
    var i := r[0].index;
    RankMembers(row, Scored(p, row[p]));
    var q :| 0 <= q < |r| && r[q] == Scored(p, row[p]);
    forall j | 0 <= j < |row| && j != i ensures Before(r[0], Scored(j, row[j])) {
      RankMembers(row, Scored(j, row[j]));
      var m :| 0 <= m < |r| && r[m] == Scored(j, row[j]);
      assert m != 0;
    }
    assert i != p ==> Before(Scored(i, row[i]), Scored(p, row[p]));
  }

  /** A catalogue of the loaded shape answers every unique name, with min(top_n, N - 1) rows. */
  lemma RecommendSucceeds(c: Catalogue, name: string, topN: int)
    requires WellFormed(c)
    ensures Recommend(c, name, topN).Ok? <==> Unique(c.names, name)
    ensures name !in c.names ==> Recommend(c, name, topN) == Err(KeyNotFound(name))
    ensures Recommend(c, name, topN).Ok? && topN >= 0 ==>
              |Recommend(c, name, topN).value| == Min(topN, |c.names| - 1)
  {
    assert SameShape(c.sim1, c.sim2) && SameShape(c.sim1, c.sim3);
    if Unique(c.names, name) {
      var row := SourceRow(c, name).value.1;
      var sel := Select(row, topN);
      SelectRanked(row, topN);
      forall k | 0 <= k < |sel| ensures sel[k].index < |c.names| && c.names[sel[k].index] in c.links {
      }
      if topN >= 0 {
        SelectIsRankedTail(row, topN);
      }
    }
  }

  /** `run()`'s call: for a unique name the default top_n gives five rows, or every other name when there are fewer. */
  lemma RecommendDefault(c: Catalogue, name: string)
    requires WellFormed(c) && Unique(c.names, name)
    ensures Recommend(c, name, DefaultTopN).Ok?
    ensures |Recommend(c, name, DefaultTopN).value| == if |c.names| > 5 then 5 else |c.names| - 1
  {
    RecommendSucceeds(c, name, DefaultTopN);
  }

  /** The result's scores never increase from one row to the next. */
  lemma RecommendScoresNonIncreasing(c: Catalogue, name: string, topN: int)
    requires Recommend(c, name, topN).Ok?
    ensures var r := Recommend(c, name, topN).value;
            forall k, l :: 0 <= k < l < |r| ==> r[k].score >= r[l].score
  {
    var row := SourceRow(c, name).value.1;
    var sel := Select(row, topN);
    var r := Recommend(c, name, topN).value;
    SelectRanked(row, topN);
    forall k, l | 0 <= k < l < |r| ensures r[k].score >= r[l].score {
      assert Before(sel[k], sel[l]);
      Round3Monotone(sel[l].score, sel[k].score);
    }
  }

  /**
   * `score` is the rounded combined similarity, in the source's row p, of
   * some position whose name is `name`.
   */
  ghost predicate CombinedScoreOf(c: Catalogue, p: nat, name: string, score: real)
    requires p < |c.sim1| && p < |c.sim2| && p < |c.sim3|
  {
    exists i :: 0 <= i < |c.names| && i < |c.sim1[p]| && i < |c.sim2[p]| && i < |c.sim3[p]|
      && c.names[i] == name
      && score == Round3(W1 * c.sim1[p][i] + W2 * c.sim2[p][i] + W3 * c.sim3[p][i])
  }

  /** Each row's score is the rounded combined similarity of the row's property to the source. */
  lemma RecommendScoresAreCombined(c: Catalogue, name: string, topN: int)
    requires Recommend(c, name, topN).Ok?
    ensures SourceRow(c, name).Ok?
    ensures var p := SourceRow(c, name).value.0;
            p < |c.sim1| && p < |c.sim2| && p < |c.sim3|
            && var r := Recommend(c, name, topN).value;
               forall k :: 0 <= k < |r| ==> CombinedScoreOf(c, p, r[k].name, r[k].score)
  {
    var p := SourceRow(c, name).value.0;
    var row := SourceRow(c, name).value.1;
    var sel := Select(row, topN);
    var r := Recommend(c, name, topN).value;
    assert |r| == |sel| && |row| == |c.sim1[p]| == |c.sim2[p]| == |c.sim3[p]|;
    SelectRanked(row, topN);
    forall k | 0 <= k < |r| ensures CombinedScoreOf(c, p, r[k].name, r[k].score) {
      CombinedWitness(c, p, row, sel[k], r[k]);
    }
  }

  /** A row describing an entry of the source's combined row carries that entry's combined score. */
  lemma CombinedWitness(c: Catalogue, p: nat, row: seq<real>, e: Scored, rec: Recommendation)
    requires p < |c.sim1| && p < |c.sim2| && p < |c.sim3|
    requires |row| == |c.sim1[p]| == |c.sim2[p]| == |c.sim3[p]|
    requires e.index < |row| && e.score == row[e.index]
    requires row[e.index] == W1 * c.sim1[p][e.index] + W2 * c.sim2[p][e.index] + W3 * c.sim3[p][e.index]
    requires Describes(c, e, rec)
    ensures CombinedScoreOf(c, p, rec.name, rec.score)
  {
  }

  /**
   * When the source comes before every other position in its own row (for
   * instance its self-similarity is strictly the largest), the skipped first
   * entry is the source itself, and no row of the result names it.
   */
  lemma RecommendOmitsSourceWhenAhead(c: Catalogue, name: string, topN: int)
    requires Recommend(c, name, topN).Ok?
    requires var (p, row) := SourceRow(c, name).value;
             && p < |row|
             && forall j :: 0 <= j < |row| && j != p ==> Before(Scored(p, row[p]), Scored(j, row[j]))
    ensures forall k :: 0 <= k < |Recommend(c, name, topN).value| ==> Recommend(c, name, topN).value[k].name != name
  {
    var (p, row) := SourceRow(c, name).value;
    var sel := Select(row, topN);
    var r := Recommend(c, name, topN).value;
    if |sel| > 0 {
      var lo, hi := SliceBound(1, |Rank(row)|), SliceBound(topN + 1, |Rank(row)|);
      assert lo == 1 && sel == Rank(row)[1..hi];
      RankHead(row, p);
      RankDistinctPositions(row);
      forall k | 0 <= k < |r| ensures r[k].name != name {
        assert sel[k] == Rank(row)[k + 1];
      }
    }
  }

  /**
   * Four properties A, B, C, D with unit self-similarity; A and B are
   * similar (0.2, 0.4 and 0.9 in the three matrices), every other pair is 0.
   */
  function FourCatalogue(): Catalogue
  {
    Catalogue(
      [[1.0, 0.2, 0.0, 0.0], [0.2, 1.0, 0.0, 0.0], [0.0, 0.0, 1.0, 0.0], [0.0, 0.0, 0.0, 1.0]],
      [[1.0, 0.4, 0.0, 0.0], [0.4, 1.0, 0.0, 0.0], [0.0, 0.0, 1.0, 0.0], [0.0, 0.0, 0.0, 1.0]],
      [[1.0, 0.9, 0.0, 0.0], [0.9, 1.0, 0.0, 0.0], [0.0, 0.0, 1.0, 0.0], [0.0, 0.0, 0.0, 1.0]],
      ["A", "B", "C", "D"],
      map["A" := None, "B" := Some("b.html"), "C" := None, "D" := None])
  }

  /** A's combined row: 0.5 + 0.8 + 1 = 2.3 for itself, 0.5 * 0.2 + 0.8 * 0.4 + 0.9 = 1.32 for B. */
  lemma FourSourceRow()
    ensures SourceRow(FourCatalogue(), "A") == Ok((0, [2.3, 1.32, 0.0, 0.0]))
  {
    var c := FourCatalogue();
    assert GetLoc(c.names, "A") == Ok(0);
    var m := Combine(c.sim1, c.sim2, c.sim3);
    assert m.Ok? && |m.value| == 4 && |m.value[0]| == 4;
    assert m.value[0] == [2.3, 1.32, 0.0, 0.0];
  }

  /** A ranks first, then B, then the two zeros in position order. */
  lemma FourRank()
    ensures Rank([2.3, 1.32, 0.0, 0.0]) == [Scored(0, 2.3), Scored(1, 1.32), Scored(2, 0.0), Scored(3, 0.0)]
  {
    var s := [Scored(0, 2.3), Scored(1, 1.32), Scored(2, 0.0), Scored(3, 0.0)];
    assert Enumerate([2.3, 1.32, 0.0, 0.0]) == s;
    assert SortDesc(s[3..]) == s[3..];
    assert SortDesc(s[2..]) == s[2..] by { assert s[2..][1..] == s[3..]; }
    assert SortDesc(s[1..]) == s[1..] by { assert s[1..][1..] == s[2..]; }
    assert s == [s[0]] + s[1..];
    assert SortDesc(s) == InsertDesc(s[0], s[1..]);
  }

  /** `recommend("A", 1)`: B, with score 1.32 and its link cell. */
  lemma FourRecommendsB()
    ensures Recommend(FourCatalogue(), "A", 1) == Ok([Recommendation("B", 1.32, "[Visit Property](b.html)")])
  {
    var c := FourCatalogue();
    FourSourceRow();
    RecommendFromRow(c, "A", 1, 0, [2.3, 1.32, 0.0, 0.0]);
    FourSelect();
    FourLinkOfB();
    DescribeOne(c, 1, 1320);
  }

  /** B's link renders as a markdown link. */
  lemma FourLinkOfB()
    ensures var c := FourCatalogue();
            c.names[1] == "B" && "B" in c.links && LinkCell(c.links["B"]) == "[Visit Property](b.html)"
  {
    assert LinkCell(Some("b.html")) == "[Visit Property](b.html)";
  }

  /** Once the source row is known, the result is the description of its selection. */
  lemma RecommendFromRow(c: Catalogue, name: string, topN: int, p: nat, row: seq<real>)
    requires SourceRow(c, name) == Ok((p, row))
    ensures Recommend(c, name, topN) == Describe(c, Select(row, topN))
  {
  }

  lemma FourSelect()
    ensures Select([2.3, 1.32, 0.0, 0.0], 1) == [Scored(1, 1.32)]
  {
    FourRank();
    SelectOne([2.3, 1.32, 0.0, 0.0]);
  }

  /** With `top_n = 1` the selection is the second-ranked entry alone. */
  lemma SelectOne(row: seq<real>)
    requires |row| >= 2
    ensures Select(row, 1) == [Rank(row)[1]]
  {
    SelectIsRankedTail(row, 1);
  }

  // ---------------------------------------------------------------------
  // The self-match is assumed, not checked. When another position ties with
  // the source's own score and comes earlier in the row, stable sorting puts
  // that position first: it is the one skipped, and the source is
  // recommended to itself.
  // ---------------------------------------------------------------------

  /** Two listings with identical features: every similarity is 1.0. */
  function TwinCatalogue(): Catalogue
  {
    Catalogue([[1.0, 1.0], [1.0, 1.0]], [[1.0, 1.0], [1.0, 1.0]], [[1.0, 1.0], [1.0, 1.0]],
              ["A", "B"], map["A" := None, "B" := None])
  }

  /** In the twin catalogue both positions of "B"'s row score 0.5 + 0.8 + 1 = 2.3. */
  lemma TwinSourceRow()
    ensures SourceRow(TwinCatalogue(), "B") == Ok((1, [2.3, 2.3]))
  {
    var c := TwinCatalogue();
    assert GetLoc(c.names, "B") == Ok(1);
    var m := Combine(c.sim1, c.sim2, c.sim3);
    assert m.Ok? && |m.value| == 2;
    assert m.value[1] == [2.3, 2.3];
  }

  /** A tie is ranked by position: "A" (position 0) before "B" (position 1). */
  lemma TwinRank()
    ensures Rank([2.3, 2.3]) == [Scored(0, 2.3), Scored(1, 2.3)]
  {
    assert Enumerate([2.3, 2.3]) == [Scored(0, 2.3), Scored(1, 2.3)];
    assert SortDesc([Scored(1, 2.3)]) == [Scored(1, 2.3)];
  }

  /** As written, "B" is recommended to itself and "A", its real top match, is dropped. */
  lemma SourceRecommendedToItself()
    ensures Recommend(TwinCatalogue(), "B", 1) == Ok([Recommendation("B", 2.3, NoLink)])
  {
    TwinSourceRow();
    TwinRank();
    assert Select([2.3, 2.3], 1) == [Scored(1, 2.3)];
    DescribeOne(TwinCatalogue(), 1, 2300);
  }

  /** Describing one selected entry whose score already has three decimals. */
  lemma DescribeOne(c: Catalogue, i: nat, n: int)
    requires i < |c.names| && c.names[i] in c.links
    ensures Describe(c, [Scored(i, n as real / 1000.0)])
            == Ok([Recommendation(c.names[i], n as real / 1000.0, LinkCell(c.links[c.names[i]]))])
  {
    Round3Exact(n);
    var e := Scored(i, n as real / 1000.0);
    var r := Describe(c, [e]);
    assert r.Ok? && |r.value| == 1;
    assert Describes(c, e, r.value[0]);
    assert r.value == [Recommendation(c.names[i], n as real / 1000.0, LinkCell(c.links[c.names[i]]))];
  }

  /** The ranking with the entry at position p removed, order kept. */
  function WithoutPosition(s: seq<Scored>, p: nat): (r: seq<Scored>)
    ensures forall e :: e in r <==> e in s && e.index != p
    ensures (forall e :: e in s ==> e.index != p) ==> r == s
    ensures ((forall i, j :: 0 <= i < j < |s| ==> s[i].index != s[j].index) && (exists k :: 0 <= k < |s| && s[k].index == p))
              ==> |r| == |s| - 1
  {
    if s == [] then []
    else
      assert s == [s[0]] + s[1..];
      var rest := WithoutPosition(s[1..], p);
      if s[0].index == p then rest else [s[0]] + rest
  }

  /** Removing an entry from a ranked list leaves it ranked. */
  lemma {:induction false} WithoutPositionRanked(s: seq<Scored>, p: nat)
    requires Ranked(s)
    ensures Ranked(WithoutPosition(s, p))
  {
    if s != [] {
      assert s == [s[0]] + s[1..];
      WithoutPositionRanked(s[1..], p);
      if s[0].index != p {
        var rest := WithoutPosition(s[1..], p);
        forall e | e in rest ensures Before(s[0], e) {
          var k :| 0 <= k < |s[1..]| && s[1..][k] == e;
          assert s[k + 1] == e;
        }
        RankedCons(s[0], rest);
      }
    }
  }

  /** The evidently intended selection: the first top_n ranked entries other than the source. */
  function SelectExcludingSelf(row: seq<real>, p: nat, topN: int): (r: seq<Scored>)
    ensures |r| <= |WithoutPosition(Rank(row), p)|
    ensures forall k :: 0 <= k < |r| ==> r[k] == WithoutPosition(Rank(row), p)[k]
    ensures forall e :: e in r ==> e in Rank(row) && e.index != p
  {
    var w := WithoutPosition(Rank(row), p);
    var r := Slice(w, 0, topN);
    assert forall e :: e in r ==> e in w by {
      forall e | e in r ensures e in w {
        var k :| 0 <= k < |r| && r[k] == e;
        assert w[k] == e;
      }
    }
    r
  }

  /** The selection never holds the source; it keeps the ranking's order; it has min(top_n, N - 1) entries. */
  lemma SelectExcludingSelfSpec(row: seq<real>, p: nat, topN: int)
    requires p < |row| && topN >= 0
    ensures var sel := SelectExcludingSelf(row, p, topN);
            && (forall k :: 0 <= k < |sel| ==> sel[k].index != p && sel[k].index < |row| && sel[k].score == row[sel[k].index])
            && Ranked(sel)
            && |sel| == Min(topN, |row| - 1)
  {
    RankIsRanking(row);
    RankDistinctPositions(row);
    var r := Rank(row);
    var w := WithoutPosition(r, p);
    RankMembers(row, Scored(p, row[p]));
    var q :| 0 <= q < |r| && r[q] == Scored(p, row[p]);
    assert |w| == |r| - 1;
    var sel := SelectExcludingSelf(row, p, topN);
    WithoutPositionRanked(r, p);
    SliceNonNegative(w, 0, topN);
    forall k | 0 <= k < |sel| ensures sel[k].index != p && sel[k].index < |row| && sel[k].score == row[sel[k].index] {
      assert sel[k] == w[k] && w[k] in w;
      RankMembers(row, sel[k]);
    }
    forall i, j | 0 <= i < j < |sel| ensures Before(sel[i], sel[j]) {
      assert sel[i] == w[i] && sel[j] == w[j];
    }
  }

  /** Where the source heads its own ranking, the intended selection is the one the code makes. */
  lemma SelectExcludingSelfAgrees(row: seq<real>, p: nat, topN: int)
    requires p < |row| && topN >= 0
    requires Rank(row)[0].index == p
    ensures SelectExcludingSelf(row, p, topN) == Select(row, topN)
  {
    RankDistinctPositions(row);
    var r := Rank(row);
    WithoutHead(r, p);
    SliceTail(r, 0, topN);
  }

  /** In a list of distinct positions headed by p, removing p removes just the head. */
  lemma WithoutHead(s: seq<Scored>, p: nat)
    requires s != [] && s[0].index == p
    requires forall i, j :: 0 <= i < j < |s| ==> s[i].index != s[j].index
    ensures WithoutPosition(s, p) == s[1..]
  {
    forall e | e in s[1..] ensures e.index != p {
      var k :| 0 <= k < |s[1..]| && s[1..][k] == e;
      assert s[k + 1] == e;
    }
    assert WithoutPosition(s[1..], p) == s[1..];
  }

  /** `Recommend` with the source's own position removed instead of ranked position 0. */
  function RecommendExcludingSelf(c: Catalogue, name: string, topN: int): (r: Result<seq<Recommendation>>)
    ensures SourceRow(c, name).Err? ==> r == Err(SourceRow(c, name).error)
    ensures SourceRow(c, name).Ok? ==>
              var (p, row) := SourceRow(c, name).value;
              var sel := SelectExcludingSelf(row, p, topN);
              && (r.Ok? <==> forall k :: 0 <= k < |sel| ==> sel[k].index < |c.names| && c.names[sel[k].index] in c.links)
              && (r.Ok? ==> |r.value| == |sel| && forall k :: 0 <= k < |sel| ==> Describes(c, sel[k], r.value[k]))
  {
    match SourceRow(c, name)
    case Err(e) => Err(e)
    case Ok((p, row)) => Describe(c, SelectExcludingSelf(row, p, topN))
  }

  /** The corrected recommender never names the source, whatever the scores. */
  lemma RecommendExcludingSelfOmitsSource(c: Catalogue, name: string, topN: int)
    requires RecommendExcludingSelf(c, name, topN).Ok?
    ensures forall k :: 0 <= k < |RecommendExcludingSelf(c, name, topN).value| ==>
              RecommendExcludingSelf(c, name, topN).value[k].name != name
  {
    var (p, row) := SourceRow(c, name).value;
    var sel := SelectExcludingSelf(row, p, topN);
    forall k | 0 <= k < |sel| ensures sel[k].index != p {
      assert sel[k] in sel;
    }
  }

  /** With the source's own position removed, "A" is the one entry selected from "B"'s row. */
  lemma TwinSelectExcludingSelf()
    ensures SelectExcludingSelf([2.3, 2.3], 1, 1) == [Scored(0, 2.3)]
  {
    var w := [Scored(0, 2.3), Scored(1, 2.3)];
    assert WithoutPosition(w[1..], 1) == [] by {
      assert w[1..] == [Scored(1, 2.3)] && w[1..][1..] == [];
    }
    assert WithoutPosition(w, 1) == [Scored(0, 2.3)];
    TwinRank();
    assert Slice([Scored(0, 2.3)], 0, 1) == [Scored(0, 2.3)];
  }

  /** On the twin catalogue the corrected recommender gives "B" its twin "A". */
  lemma TwinRecommendedExcludingSelf()
    ensures RecommendExcludingSelf(TwinCatalogue(), "B", 1) == Ok([Recommendation("A", 2.3, NoLink)])
  {
    TwinSourceRow();
    TwinSelectExcludingSelf();
    DescribeOne(TwinCatalogue(), 0, 2300);
  }
}
