/**
 * Ranking of one row of scores: `sorted(list(enumerate(row)), key=score,
 * reverse=True)`. Python's sort is stable, also with `reverse=True`, so the
 * ranking is by score, highest first, and among equal scores by position,
 * lowest first.
 */
module Ranking {

  /** One `(position, score)` pair of `enumerate(row)`. */
  datatype Scored = Scored(index: nat, score: real)

  /** `list(enumerate(row))`. */
  function Enumerate(row: seq<real>): (r: seq<Scored>)
    ensures |r| == |row|
    ensures forall i :: 0 <= i < |row| ==> r[i] == Scored(i, row[i])
  {
    seq(|row|, i requires 0 <= i < |row| => Scored(i, row[i]))
  }

  /** Scores never increase along `s`. */
  ghost predicate NonIncreasing(s: seq<Scored>)
  {
    forall i, j :: 0 <= i < j < |s| ==> s[i].score >= s[j].score
  }

  /** `a` comes before `b` in the ranking: higher score, or same score and lower position. */
  predicate Before(a: Scored, b: Scored)
  {
    a.score > b.score || (a.score == b.score && a.index < b.index)
  }

  /** Every entry comes before every later entry. */
  ghost predicate Ranked(s: seq<Scored>)
  {
    forall i, j :: 0 <= i < j < |s| ==> Before(s[i], s[j])
  }

  /** Positions strictly increase along `s` (as they do in `enumerate`). */
  ghost predicate PositionsIncreasing(s: seq<Scored>)
  {
    forall i, j :: 0 <= i < j < |s| ==> s[i].index < s[j].index
  }

  /** What the ranked list of `row` is, independently of how it is computed. */
  ghost predicate IsRankingOf(row: seq<real>, r: seq<Scored>)
  {
    multiset(r) == multiset(Enumerate(row)) && Ranked(r)
  }

  /**
   * Inserts `x` into a list sorted by descending score, in front of every
   * entry whose score is not higher: `x` came earlier in the input than all
   * of `s`, so this keeps the sort stable.
   */
  function InsertDesc(x: Scored, s: seq<Scored>): (r: seq<Scored>)
    requires NonIncreasing(s)
    ensures NonIncreasing(r)
    ensures multiset(r) == multiset(s) + multiset{x}
    ensures |r| == |s| + 1
    ensures r[0] == x || (s != [] && r[0] == s[0])
  {
    if s == [] || x.score >= s[0].score then
      NonIncreasingCons(x, s);
      [x] + s
    else
      var t := InsertDesc(x, s[1..]);
      assert s == [s[0]] + s[1..];
      NonIncreasingCons(s[0], t);
      [s[0]] + t
  }

  /** An entry scoring at least as high as the head of a non-increasing list can head it. */
  lemma NonIncreasingCons(x: Scored, s: seq<Scored>)
    requires NonIncreasing(s)
    requires s != [] ==> s[0].score <= x.score
    ensures NonIncreasing([x] + s)
  {
    var r := [x] + s;
    forall i, j | 0 <= i < j < |r| ensures r[i].score >= r[j].score {
      assert r[j] == s[j - 1];
      if i > 0 {
        assert r[i] == s[i - 1];
      } else {
        assert j - 1 == 0 || s[0].score >= s[j - 1].score;
      }
    }
  }

  /** Stable sort by descending score (`sorted(..., key=score, reverse=True)`). */
  function SortDesc(s: seq<Scored>): (r: seq<Scored>)
    ensures NonIncreasing(r)
    ensures multiset(r) == multiset(s)
    ensures |r| == |s|
  {
    if s == [] then []
    else
      assert s == [s[0]] + s[1..];
      InsertDesc(s[0], SortDesc(s[1..]))
  }

  /** The ranked list of a row of scores (recommend.py, lines 28-31). */
  function Rank(row: seq<real>): (r: seq<Scored>)
    ensures |r| == |row|
    ensures NonIncreasing(r)
  {
    SortDesc(Enumerate(row))
  }

  /** An entry that comes before every entry of a ranked list can head it. */
  lemma RankedCons(x: Scored, s: seq<Scored>)
    requires Ranked(s)
    requires forall e :: e in s ==> Before(x, e)
    ensures Ranked([x] + s)
  {
    var r := [x] + s;
    forall i, j | 0 <= i < j < |r| ensures Before(r[i], r[j]) {
      assert r[j] == s[j - 1];
      if i > 0 {
        assert r[i] == s[i - 1];
      }
    }
  }

  lemma {:induction false} InsertDescRanked(x: Scored, s: seq<Scored>)
    requires Ranked(s)
    requires forall e :: e in s ==> x.index < e.index
    ensures Ranked(InsertDesc(x, s))
  {
    if s == [] || x.score >= s[0].score {
      forall e | e in s ensures Before(x, e) {
        var k :| 0 <= k < |s| && s[k] == e;
        assert k == 0 || Before(s[0], s[k]);
      }
      RankedCons(x, s);
    } else {
      assert s == [s[0]] + s[1..];
      InsertDescRanked(x, s[1..]);
      var t := InsertDesc(x, s[1..]);
      forall e | e in t ensures Before(s[0], e) {
        assert e in multiset(s[1..]) + multiset{x};
        if e != x {
          assert e in s[1..];
          var k :| 0 <= k < |s[1..]| && s[1..][k] == e;
          assert s[k + 1] == e;
        }
      }
      RankedCons(s[0], t);
    }
  }

  /**
   * Stability: sorting a list whose positions increase orders equal scores
   * by increasing position.
   */
  lemma {:induction false} SortDescRanked(s: seq<Scored>)
    requires PositionsIncreasing(s)
    ensures Ranked(SortDesc(s))
  {
    if s != [] {
      SortDescRanked(s[1..]);
      var t := SortDesc(s[1..]);
      forall e | e in t ensures s[0].index < e.index {
        assert e in multiset(s[1..]);
        var k :| 0 <= k < |s[1..]| && s[1..][k] == e;
        assert s[k + 1] == e;
      }
      InsertDescRanked(s[0], t);
    }
  }

  /** The ranking of a row is a ranked permutation of its `(position, score)` pairs. */
  lemma RankIsRanking(row: seq<real>)
    ensures IsRankingOf(row, Rank(row))
  {
    SortDescRanked(Enumerate(row));
  }

  /** An entry of the ranking is exactly a position of the row with that position's score. */
  lemma RankMembers(row: seq<real>, e: Scored)
    ensures e in Rank(row) <==> e.index < |row| && e.score == row[e.index]
  {
    var r := Rank(row);
    assert multiset(r) == multiset(Enumerate(row));
    assert e in r <==> e in multiset(r);
    if e.index < |row| && e.score == row[e.index] {
      assert Enumerate(row)[e.index] == e;
    }
  }

  /** Two rankings of the same entries start with the same entry: `Before` is a strict order. */
  lemma RankedHeads(a: seq<Scored>, b: seq<Scored>)
    requires Ranked(a) && Ranked(b)
    requires multiset(a) == multiset(b) && a != []
    ensures b != [] && a[0] == b[0]
  {
    assert a[0] in multiset(b);
    assert b[0] in multiset(a);
    var i :| 0 <= i < |a| && a[i] == b[0];
    var j :| 0 <= j < |b| && b[j] == a[0];
    assert i != 0 ==> Before(a[0], b[0]);
    assert j != 0 ==> Before(b[0], a[0]);
  }

  /** Dropping the head of a list drops one copy of it from the multiset. */
  lemma MultisetTail(s: seq<Scored>)
    requires s != []
    ensures multiset(s[1..]) == multiset(s) - multiset{s[0]}
  {
    assert s == [s[0]] + s[1..];
  }

  /** Two rankings of the same entries are the same list: the ranking leaves nothing to chance. */
  lemma {:induction false} RankedUnique(a: seq<Scored>, b: seq<Scored>)
    requires Ranked(a) && Ranked(b)
    requires multiset(a) == multiset(b)
    ensures a == b
  {
    if a != [] {
      RankedHeads(a, b);
      MultisetTail(a);
      MultisetTail(b);
      assert Ranked(a[1..]) && Ranked(b[1..]);
      RankedUnique(a[1..], b[1..]);
      assert a == [a[0]] + a[1..] && b == [b[0]] + b[1..];
    }
  }

  /** Any ranked permutation of the row's pairs is the one `Rank` computes. */
  lemma RankUnique(row: seq<real>, r: seq<Scored>)
    requires IsRankingOf(row, r)
    ensures r == Rank(row)
  {
    RankIsRanking(row);
    RankedUnique(r, Rank(row));
  }
}
