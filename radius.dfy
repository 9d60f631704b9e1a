/**
 * The location search of `run()` (recommend.py, lines 54-70): keep the
 * properties whose distance to the chosen landmark, in metres, is strictly
 * below `radius * 1000`, sort them by distance, and report each distance in
 * kilometres rounded to two places, or a warning when there is none.
 */
module RadiusSearch {
  import opened Base
  import opened PyBuiltins

  /**
   * `location_df`: the property name of each row and, for each landmark
   * column, the distance of each row to it in metres (`None` for NaN).
   */
  datatype LocationTable = LocationTable(names: seq<string>, columns: map<string, seq<Option<real>>>)

  /** Every column has one cell per row, as in any DataFrame. */
  ghost predicate WellFormed(t: LocationTable)
  {
    forall l :: l in t.columns ==> |t.columns[l]| == |t.names|
  }

  /** One entry of the result series: row position, property name, distance in metres. */
  datatype Nearby = Nearby(position: nat, name: string, metres: real)

  /** The cell at row i is a recorded distance strictly below the threshold (NaN compares false). */
  predicate Below(column: seq<Option<real>>, i: nat, threshold: real)
    requires i < |column|
  {
    column[i].Some? && column[i].value < threshold
  }

  /** The rows from position `from` on whose cell is below the threshold, in row order. */
  function WithinFrom(names: seq<string>, column: seq<Option<real>>, threshold: real, from: nat): (r: seq<Nearby>)
    requires |names| == |column| && from <= |column|
    ensures forall e :: e in r ==>
              from <= e.position < |column| && Below(column, e.position, threshold)
              && column[e.position] == Some(e.metres) && e.name == names[e.position]
    ensures forall i :: from <= i < |column| && Below(column, i, threshold) ==>
              Nearby(i, names[i], column[i].value) in r
    ensures forall i, j :: 0 <= i < j < |r| ==> r[i].position < r[j].position
    ensures (forall i :: from <= i < |column| ==> !Below(column, i, threshold)) ==> r == []
    decreases |column| - from
  {
    if from == |column| then []
    else
      var rest := WithinFrom(names, column, threshold, from + 1);
      if Below(column, from, threshold) then [Nearby(from, names[from], column[from].value)] + rest
      else rest
  }

  /**
   * `location_df[location_df[landmark] < threshold][landmark]`: the rows
   * whose cell is below the threshold, in row order (recommend.py, lines 61-62).
   */
  function Within(names: seq<string>, column: seq<Option<real>>, threshold: real): (r: seq<Nearby>)
    requires |names| == |column|
    ensures forall e :: e in r <==>
              e.position < |column| && Below(column, e.position, threshold)
              && column[e.position] == Some(e.metres) && e.name == names[e.position]
    ensures forall i, j :: 0 <= i < j < |r| ==> r[i].position < r[j].position
    ensures (forall i :: 0 <= i < |column| ==> !Below(column, i, threshold)) ==> r == []
  {
    var r := WithinFrom(names, column, threshold, 0);
    assert forall e: Nearby | e.position < |column| && Below(column, e.position, threshold)
              && column[e.position] == Some(e.metres) && e.name == names[e.position] ::
              e == Nearby(e.position, names[e.position], column[e.position].value);
    r
  }

  /** Distances never decrease along `s`. */
  ghost predicate Ascending(s: seq<Nearby>)
  {
    forall i, j :: 0 <= i < j < |s| ==> s[i].metres <= s[j].metres
  }

  /** An entry no farther than the head of an ascending list can head it. */
  lemma AscendingCons(x: Nearby, s: seq<Nearby>)
    requires Ascending(s)
    requires s != [] ==> x.metres <= s[0].metres
    ensures Ascending([x] + s)
  {
    var r := [x] + s;
    forall i, j | 0 <= i < j < |r| ensures r[i].metres <= r[j].metres {
      assert r[j] == s[j - 1];
      if i > 0 {
        assert r[i] == s[i - 1];
      } else {
        assert j - 1 == 0 || s[0].metres <= s[j - 1].metres;
      }
    }
  }

  function InsertAsc(x: Nearby, s: seq<Nearby>): (r: seq<Nearby>)
    requires Ascending(s)
    ensures Ascending(r)
    ensures multiset(r) == multiset(s) + multiset{x}
    ensures |r| == |s| + 1
    ensures r[0] == x || (s != [] && r[0] == s[0])
  {
    if s == [] || x.metres <= s[0].metres then
      AscendingCons(x, s);
      [x] + s
    else
      var t := InsertAsc(x, s[1..]);
      assert s == [s[0]] + s[1..];
      AscendingCons(s[0], t);
      [s[0]] + t
  }

  /**
   * `Series.sort_values()`: ascending by distance. pandas' default sort is
   * not stable, so the order among equal distances is not specified; this
   * insertion sort is one admissible order. Which rows are found and the
   * distance column do not depend on that choice; the order of names at
   * equal distance does.
   */
  function SortAsc(s: seq<Nearby>): (r: seq<Nearby>)
    ensures Ascending(r)
    ensures multiset(r) == multiset(s)
  {
    if s == [] then []
    else
      assert s == [s[0]] + s[1..];
      InsertAsc(s[0], SortAsc(s[1..]))
  }

  /**
   * The result series for a landmark and a radius in kilometres: an
   * ascending reordering of exactly the rows within the radius. A landmark
   * that is not a column raises KeyError.
   */
  function Search(t: LocationTable, landmark: string, radius: real): (r: Result<seq<Nearby>>)
    requires WellFormed(t)
    ensures r.Ok? <==> landmark in t.columns
    ensures r.Err? ==> r.error == KeyNotFound(landmark)
    ensures r.Ok? ==> Ascending(r.value)
    ensures r.Ok? ==> multiset(r.value) == multiset(Within(t.names, t.columns[landmark], radius * 1000.0))
  {
    if landmark !in t.columns then Err(KeyNotFound(landmark))
    else Ok(SortAsc(Within(t.names, t.columns[landmark], radius * 1000.0)))
  }

  /** Lists with the same multiset have the same members. */
  lemma SameMembers(r: seq<Nearby>, w: seq<Nearby>)
    requires multiset(r) == multiset(w)
    ensures forall e :: e in r <==> e in w
  {
    forall e: Nearby ensures e in r <==> e in w {
      assert e in r <==> e in multiset(r);
      assert e in w <==> e in multiset(w);
    }
  }

  /**
   * The result holds exactly the rows whose recorded distance is strictly
   * below radius * 1000 metres, each once, with its own name and distance;
   * a missing (NaN) distance is never included.
   */
  lemma SearchMembers(t: LocationTable, landmark: string, radius: real)
    requires WellFormed(t) && Search(t, landmark, radius).Ok?
    ensures var r := Search(t, landmark, radius).value;
            var column := t.columns[landmark];
            && (forall e :: e in r <==>
                  e.position < |column| && Below(column, e.position, radius * 1000.0)
                  && column[e.position] == Some(e.metres) && e.name == t.names[e.position])
            && (forall i, j :: 0 <= i < j < |r| ==> r[i].position != r[j].position)
  {
    var column := t.columns[landmark];
    var w := Within(t.names, column, radius * 1000.0);
    var r := Search(t, landmark, radius).value;
    SameMembers(r, w);
    SearchPositionsDistinct(r, w);
  }

  /** A reordering of a list with increasing positions repeats no position. */
  lemma SearchPositionsDistinct(r: seq<Nearby>, w: seq<Nearby>)
    requires multiset(r) == multiset(w)
    requires forall i, j :: 0 <= i < j < |w| ==> w[i].position < w[j].position
    requires forall e, f :: e in r && f in r && e.position == f.position ==> e == f
    ensures forall i, j :: 0 <= i < j < |r| ==> r[i].position != r[j].position
  {
    SameMembers(r, w);
    forall i, j | 0 <= i < j < |r| ensures r[i].position != r[j].position {
      // two entries for one row would be the same value, which occurs once in w
      assert r[i] in w;
      var k :| 0 <= k < |w| && w[k] == r[i];
      WithinOnce(w, k);
      TwiceInMultiset(r, i, j);
      assert r[i] != r[j];
    }
  }

  /** Removing the entry at j from an ascending list leaves it ascending. */
  lemma RemoveAt(b: seq<Nearby>, j: nat)
    requires j < |b| && Ascending(b)
    ensures var rest := b[..j] + b[j + 1..];
            && |rest| == |b| - 1
            && (forall p :: 0 <= p < |rest| ==> rest[p] == b[if p < j then p else p + 1])
            && Ascending(rest)
            && multiset(b) == multiset(rest) + multiset{b[j]}
  {
    var rest := b[..j] + b[j + 1..];
    assert forall p :: 0 <= p < |rest| ==> rest[p] == b[if p < j then p else p + 1];
    forall p, q | 0 <= p < q < |rest| ensures rest[p].metres <= rest[q].metres {
      assert rest[q] == b[if q < j then q else q + 1];
    }
    assert b == b[..j] + [b[j]] + b[j + 1..];
  }

  /** Taking the head of `a` out of `a` and its match at j out of `b` leaves two ascending lists with equal multisets. */
  lemma RemoveMatch(a: seq<Nearby>, b: seq<Nearby>, j: nat)
    requires Ascending(b) && multiset(a) == multiset(b) && a != []
    requires j < |b| && b[j] == a[0]
    ensures var rest := b[..j] + b[j + 1..];
            Ascending(rest) && multiset(a[1..]) == multiset(rest) && |rest| == |a| - 1
  {
    RemoveAt(b, j);
    assert a == [a[0]] + a[1..];
    assert multiset(a[1..]) == multiset(a) - multiset{a[0]};
  }

  /**
   * The first entry of `a` sits at some position j of `b`, and every entry of
   * b up to j has the first entry's distance: both lists start at the minimum.
   */
  lemma HeadsAgree(a: seq<Nearby>, b: seq<Nearby>) returns (j: nat)
    requires Ascending(a) && Ascending(b) && multiset(a) == multiset(b) && a != []
    ensures j < |b| && b[j] == a[0]
    ensures forall k :: 0 <= k <= j ==> b[k].metres == a[0].metres
  {
    assert a[0] in multiset(a);
    j :| 0 <= j < |b| && b[j] == a[0];
    assert b[0] in multiset(a);
    var i :| 0 <= i < |a| && a[i] == b[0];
    assert a[0].metres <= b[0].metres;
  }

  /** The last step of the proof below: re-inserting the entry at j into b's distance column. */
  lemma AlignAfterRemoval(a: seq<Nearby>, b: seq<Nearby>, j: nat)
    requires |a| == |b| && j < |b| && 0 < |a|
    requires forall k :: 0 <= k <= j ==> b[k].metres == a[0].metres
    requires var rest := b[..j] + b[j + 1..];
             |rest| == |a| - 1 && forall k :: 0 <= k < |rest| ==> a[1..][k].metres == rest[k].metres
    ensures forall k :: 0 <= k < |a| ==> a[k].metres == b[k].metres
  {
    var rest := b[..j] + b[j + 1..];
    forall k | 1 <= k < |a| ensures a[k].metres == b[k].metres {
      assert a[k] == a[1..][k - 1];
      if k - 1 < j {
        assert rest[k - 1] == b[k - 1];
      } else {
        assert rest[k - 1] == b[k];
      }
    }
  }

  /**
   * Two ascending reorderings of the same entries list the same distances in
   * the same order: they can differ only among equal distances.
   */
  lemma {:induction false} AscendingSameDistances(a: seq<Nearby>, b: seq<Nearby>)
    requires Ascending(a) && Ascending(b) && multiset(a) == multiset(b)
    ensures |a| == |b|
    ensures forall k :: 0 <= k < |a| ==> a[k].metres == b[k].metres
    decreases |a|
  {
    assert |a| == |multiset(a)| == |multiset(b)| == |b|;
    if a != [] {
      var j := HeadsAgree(a, b);
      var rest := b[..j] + b[j + 1..];
      RemoveMatch(a, b, j);
      assert Ascending(a[1..]);
      AscendingSameDistances(a[1..], rest);
      AlignAfterRemoval(a, b, j);
    }
  }

  /**
   * Whatever order pandas' unstable sort picks among equal distances, the
   * result's distance column is the one `Search` gives.
   */
  lemma SearchDistancesDetermined(t: LocationTable, landmark: string, radius: real, other: seq<Nearby>)
    requires WellFormed(t) && landmark in t.columns
    requires Ascending(other)
    requires multiset(other) == multiset(Within(t.names, t.columns[landmark], radius * 1000.0))
    ensures |other| == |Search(t, landmark, radius).value|
    ensures forall k :: 0 <= k < |other| ==> other[k].metres == Search(t, landmark, radius).value[k].metres
  {
    AscendingSameDistances(other, Search(t, landmark, radius).value);
  }

  /** In a list with strictly increasing positions each entry occurs once. */
  lemma {:induction false} WithinOnce(w: seq<Nearby>, k: nat)
    requires k < |w|
    requires forall i, j :: 0 <= i < j < |w| ==> w[i].position < w[j].position
    ensures multiset(w)[w[k]] == 1
  {
    if |w| == 1 {
    } else {
      var n := |w| - 1;
      assert w == w[..n] + [w[n]];
      if k == n {
        assert w[n] !in w[..n];
      } else {
        WithinOnce(w[..n], k);
        assert w[n] != w[k];
      }
    }
  }

  /** Two positions holding the same entry make it occur at least twice. */
  lemma TwiceInMultiset(s: seq<Nearby>, i: nat, j: nat)
    requires i < j < |s|
    ensures s[i] == s[j] ==> multiset(s)[s[i]] >= 2
  {
    assert s == s[..j] + [s[j]] + s[j + 1..];
    assert s[i] in s[..j];
  }

  // ---------------------------------------------------------------------
  // Reporting (recommend.py, lines 65-70)
  // ---------------------------------------------------------------------

  /** One reported line: the property and its distance in kilometres, rounded to two places. */
  datatype NearbyRow = NearbyRow(name: string, km: real)

  /** A warning when nothing was found, otherwise the reported lines. */
  datatype SearchReport = NoneFound | Found(rows: seq<NearbyRow>)

  /**
   * The warning for an empty result, otherwise one line per entry in result
   * order with `round(metres / 1000, 2)` kilometres (recommend.py, lines 65-70).
   */
  function Report(r: seq<Nearby>): (rep: SearchReport)
    ensures rep == NoneFound <==> r == []
    ensures rep.Found? ==> |rep.rows| == |r|
    ensures rep.Found? ==> forall k :: 0 <= k < |r| ==> rep.rows[k] == NearbyRow(r[k].name, Round2(r[k].metres / 1000.0))
  {
    if r == [] then NoneFound
    else Found(seq(|r|, k requires 0 <= k < |r| => NearbyRow(r[k].name, Round2(r[k].metres / 1000.0))))
  }

  /** A distance below the radius in metres reports at most half a unit of the second decimal above it in kilometres. */
  lemma KilometresBelow(metres: real, radius: real)
    requires metres < radius * 1000.0
    ensures Round2(metres / 1000.0) <= radius + 0.005
  {
  }

  /**
   * The reported kilometres never decrease, and each is within half a unit
   * of the second decimal of a distance strictly below the radius.
   */
  lemma ReportAscending(t: LocationTable, landmark: string, radius: real)
    requires WellFormed(t) && Search(t, landmark, radius).Ok?
    ensures var rep := Report(Search(t, landmark, radius).value);
            rep.Found? ==>
              && (forall k, l :: 0 <= k < l < |rep.rows| ==> rep.rows[k].km <= rep.rows[l].km)
              && (forall k :: 0 <= k < |rep.rows| ==> rep.rows[k].km <= radius + 0.005)
  {
    var r := Search(t, landmark, radius).value;
    ReportOrdered(r);
    SearchMembers(t, landmark, radius);
    var column := t.columns[landmark];
    forall k | 0 <= k < |r| ensures r[k].metres < radius * 1000.0 {
      assert r[k] in r;
      assert column[r[k].position] == Some(r[k].metres) && Below(column, r[k].position, radius * 1000.0);
    }
    ReportBelow(r, radius);
  }

  /** An ascending result reports non-decreasing kilometres. */
  lemma ReportOrdered(r: seq<Nearby>)
    requires Ascending(r)
    ensures var rep := Report(r);
            rep.Found? ==> forall k, l :: 0 <= k < l < |rep.rows| ==> rep.rows[k].km <= rep.rows[l].km
  {
    var rep := Report(r);
    if rep.Found? {
      forall k, l | 0 <= k < l < |rep.rows| ensures rep.rows[k].km <= rep.rows[l].km {
        Round2Monotone(r[k].metres / 1000.0, r[l].metres / 1000.0);
      }
    }
  }

  /** Distances below the radius report kilometres at most the radius plus 0.005. */
  lemma ReportBelow(r: seq<Nearby>, radius: real)
    requires forall k :: 0 <= k < |r| ==> r[k].metres < radius * 1000.0
    ensures var rep := Report(r);
            rep.Found? ==> forall k :: 0 <= k < |rep.rows| ==> rep.rows[k].km <= radius + 0.005
  {
    var rep := Report(r);
    if rep.Found? {
      forall k | 0 <= k < |rep.rows| ensures rep.rows[k].km <= radius + 0.005 {
        KilometresBelow(r[k].metres, radius);
      }
    }
  }

  /** With no negative distance, a radius of 0 (the input's minimum) finds nothing: a warning, not an error. */
  lemma ZeroRadiusFindsNothing(t: LocationTable, landmark: string, radius: real)
    requires WellFormed(t) && landmark in t.columns && radius <= 0.0
    requires forall i :: 0 <= i < |t.columns[landmark]| && t.columns[landmark][i].Some? ==> t.columns[landmark][i].value >= 0.0
    ensures Search(t, landmark, radius) == Ok([])
    ensures Report(Search(t, landmark, radius).value) == NoneFound
  {
    var column := t.columns[landmark];
    var threshold := radius * 1000.0;
    assert forall i :: 0 <= i < |column| ==> !Below(column, i, threshold);
    var r := Search(t, landmark, radius).value;
    assert |multiset(r)| == 0;
  }

  /** Landmark "Metro" at 800 m, 1500 m, unknown and 2000 m from four properties. */
  function MetroTable(): LocationTable
  {
    LocationTable(["P1", "P2", "P3", "P4"],
                  map["Metro" := [Some(800.0), Some(1500.0), None, Some(2000.0)]])
  }

  /** Within 1600 m of the metro: P1 and P2, nearest first. */
  lemma MetroSearch()
    ensures Search(MetroTable(), "Metro", 1.6) == Ok([Nearby(0, "P1", 800.0), Nearby(1, "P2", 1500.0)])
  {
    var t := MetroTable();
    var column := t.columns["Metro"];
    assert WithinFrom(t.names, column, 1600.0, 2) == [];
    assert WithinFrom(t.names, column, 1600.0, 0) == [Nearby(0, "P1", 800.0), Nearby(1, "P2", 1500.0)];
    assert SortAsc([Nearby(1, "P2", 1500.0)]) == [Nearby(1, "P2", 1500.0)];
  }

  /** Within 1.6 km: P1 at 0.8 km and P2 at 1.5 km, nearest first; P3 (unknown) and P4 (2 km) are left out. */
  lemma MetroWithinOnePointSix()
    ensures Search(MetroTable(), "Metro", 1.6).Ok?
    ensures Report(Search(MetroTable(), "Metro", 1.6).value) == Found([NearbyRow("P1", 0.8), NearbyRow("P2", 1.5)])
  {
    MetroSearch();
    MetroReport();
  }

  /** 800 m and 1500 m are reported as 0.8 km and 1.5 km. */
  lemma MetroReport()
    ensures Report([Nearby(0, "P1", 800.0), Nearby(1, "P2", 1500.0)]) == Found([NearbyRow("P1", 0.8), NearbyRow("P2", 1.5)])
  {
    var r := [Nearby(0, "P1", 800.0), Nearby(1, "P2", 1500.0)];
    assert Round2(800.0 / 1000.0) == 0.8 by {
      Round2Exact(80);
    }
    assert Round2(1500.0 / 1000.0) == 1.5 by {
      Round2Exact(150);
    }
    var rep := Report(r);
    assert rep.rows[0] == NearbyRow("P1", 0.8) && rep.rows[1] == NearbyRow("P2", 1.5);
    assert rep.rows == [NearbyRow("P1", 0.8), NearbyRow("P2", 1.5)];
  }

  /**
   * The reported (rounded) distance can reach the radius: 1599 m is inside
   * 1.6 km and is reported as 1.6 km.
   */
  lemma ReportedDistanceMayEqualRadius()
    ensures var t := LocationTable(["P"], map["Metro" := [Some(1599.0)]]);
            Report(Search(t, "Metro", 1.6).value) == Found([NearbyRow("P", 1.6)])
  {
    var t := LocationTable(["P"], map["Metro" := [Some(1599.0)]]);
    assert WithinFrom(t.names, t.columns["Metro"], 1600.0, 0) == [Nearby(0, "P", 1599.0)];
    var r := Search(t, "Metro", 1.6).value;
    assert r == [Nearby(0, "P", 1599.0)];
    assert RoundHalfEven(1599.0 / 1000.0 * 100.0) == 160;
    var rep := Report(r);
    assert rep.rows[0] == NearbyRow("P", 1.6);
    assert rep.rows == [NearbyRow("P", 1.6)];
  }
}
