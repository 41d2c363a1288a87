/**
 * The accumulated-xG chart: the expected goals of the filtered rows summed
 * per (attacking team, matchday), then laid out on the full grid of the
 * selected teams by every matchday of the unfiltered table, with 0 where a
 * pair has no rows.
 */
module Xg {
  import opened Seqs
  import opened Events
  import opened Filters

  /** One point of the chart. */
  datatype XgPoint = XgPoint(team: Label, matchday: int, xg: real)

  /** The `xg_tiro` of a row; `sum()` skips NaN, so a missing value adds 0. */
  function RowXg(e: Event): real {
    if e.xg.Some? then e.xg.value else 0.0
  }

  /** What a row adds to the group of `(team, md)`. */
  function XgIn(e: Event, team: Label, md: int): real {
    if Cell(e, AttackingTeam) == Some(team) && e.matchday == Some(md) then RowXg(e) else 0.0
  }

  /** The sum of `xg_tiro` over the rows of one group; 0 for a pair with no rows. */
  function XgSum(es: seq<Event>, team: Label, md: int): real {
    if es == [] then 0.0 else XgSum(es[..|es| - 1], team, md) + XgIn(es[|es| - 1], team, md)
  }

  /** The total `xg_tiro` of some rows. */
  function TotalXg(es: seq<Event>): real {
    if es == [] then 0.0 else TotalXg(es[..|es| - 1]) + RowXg(es[|es| - 1])
  }

  function InGroupFn(team: Label, md: int): Event -> bool {
    (e: Event) => Cell(e, AttackingTeam) == Some(team) && e.matchday == Some(md)
  }

  /** Each sum is the total xG of exactly the rows of its (team, matchday) group. */
  lemma {:induction false} XgSumIsGroupTotal(es: seq<Event>, team: Label, md: int)
    ensures XgSum(es, team, md) == TotalXg(FilterBy(es, InGroupFn(team, md)))
  {
    if es != [] {
      var init, last := es[..|es| - 1], es[|es| - 1];
      XgSumIsGroupTotal(init, team, md);
      var g := FilterBy(init, InGroupFn(team, md));
      assert FilterBy(es, InGroupFn(team, md)) == g + if InGroupFn(team, md)(last) then [last] else [];
      if InGroupFn(team, md)(last) {
        TotalXgSnoc(g, last);
      } else {
        assert g + [] == g;
      }
    }
  }

  lemma TotalXgSnoc(g: seq<Event>, e: Event)
    ensures TotalXg(g + [e]) == TotalXg(g) + RowXg(e)
  {
    assert (g + [e])[..|g|] == g;
  }


  // ---------------------------------------------------------------------
  // The zero-filled grid
  // ---------------------------------------------------------------------

  function PointFn(es: seq<Event>, team: Label): int -> XgPoint {
    md => XgPoint(team, md, XgSum(es, team, md))
  }

  /** One team's line: a point per matchday. */
  function XgRow(es: seq<Event>, team: Label, mds: seq<int>): seq<XgPoint> {
    MapSeq(mds, PointFn(es, team))
  }

  /** `reindex(MultiIndex.from_product([teams, mds]), fill_value=0)`: team-major order. */
  function XgGrid(es: seq<Event>, teams: seq<Label>, mds: seq<int>): seq<XgPoint> {
    if teams == [] then [] else XgRow(es, teams[0], mds) + XgGrid(es, teams[1..], mds)
  }

  lemma {:induction false} XgGridLength(es: seq<Event>, teams: seq<Label>, mds: seq<int>)
    ensures |XgGrid(es, teams, mds)| == |teams| * |mds|
  {
    if teams != [] {
      XgGridLength(es, teams[1..], mds);
      assert |teams| * |mds| == |mds| + (|teams| - 1) * |mds|;
    }
  }

  /** The point for `(teams[i], mds[j])` sits at `i * |mds| + j` and carries that group's xG sum. */
  lemma XgGridAt(es: seq<Event>, teams: seq<Label>, mds: seq<int>, i: nat, j: nat)
    requires i < |teams| && j < |mds|
    ensures i * |mds| + j < |XgGrid(es, teams, mds)|
    ensures XgGrid(es, teams, mds)[i * |mds| + j] == XgPoint(teams[i], mds[j], XgSum(es, teams[i], mds[j]))
  {
    XgGridAtRow(es, teams, mds, i, j);
    RowStartIsProduct(i, |mds|);
    assert XgRow(es, teams[i], mds)[j] == PointFn(es, teams[i])(mds[j]);
  }

  /** Where row `i` of a grid with rows of length `m` starts. */
  function RowStart(i: nat, m: nat): nat {
    if i == 0 then 0 else m + RowStart(i - 1, m)
  }

  lemma {:induction false} RowStartIsProduct(i: nat, m: nat)
    ensures RowStart(i, m) == i * m
  {
    if i > 0 {
      RowStartIsProduct(i - 1, m);
    }
  }

  lemma {:induction false} XgGridAtRow(es: seq<Event>, teams: seq<Label>, mds: seq<int>, i: nat, j: nat)
    requires i < |teams| && j < |mds|
    ensures RowStart(i, |mds|) + j < |XgGrid(es, teams, mds)|
    ensures XgGrid(es, teams, mds)[RowStart(i, |mds|) + j] == XgRow(es, teams[i], mds)[j]
  {
    var row := XgRow(es, teams[0], mds);
    var rest := XgGrid(es, teams[1..], mds);
    assert XgGrid(es, teams, mds) == row + rest;
    if i > 0 {
      XgGridAtRow(es, teams[1..], mds, i - 1, j);
      assert teams[1..][i - 1] == teams[i];
    }
  }

  /**
   * The chart's data, or `None` where the page shows a notice because the
   * table has no `xg_tiro` column or the filter kept no rows.  `teams` is
   * the attacking-team selection and the matchdays come from the
   * unfiltered table.
   */
  function XgSeries(t: Table, rows: seq<Event>, teams: seq<Label>): (r: Option<seq<XgPoint>>)
    ensures r.None? <==> !t.hasXg || rows == []
  {
    if t.hasXg && rows != [] then Some(XgGrid(rows, teams, MatchdayDomain(t.events))) else None
  }

  /**
   * When drawn, the series has exactly |teams| x |matchdays of the table|
   * points, each carrying the xG of the filtered rows of its pair, which is
   * 0 for a pair without rows.
   */
  lemma XgSeriesCorrect(t: Table, rows: seq<Event>, teams: seq<Label>, i: nat, j: nat)
    requires t.hasXg && rows != []
    requires i < |teams| && j < |MatchdayDomain(t.events)|
    ensures |XgSeries(t, rows, teams).value| == |teams| * |MatchdayDomain(t.events)|
    ensures i * |MatchdayDomain(t.events)| + j < |XgSeries(t, rows, teams).value|
    ensures XgSeries(t, rows, teams).value[i * |MatchdayDomain(t.events)| + j] ==
            XgPoint(teams[i], MatchdayDomain(t.events)[j], XgSum(rows, teams[i], MatchdayDomain(t.events)[j]))
  {
    XgGridLength(rows, teams, MatchdayDomain(t.events));
    XgGridAt(rows, teams, MatchdayDomain(t.events), i, j);
  }

  /** A pair with no rows is filled with 0. */
  lemma {:induction false} XgSumAbsent(es: seq<Event>, team: Label, md: int)
    requires forall e :: e in es ==> !(Cell(e, AttackingTeam) == Some(team) && e.matchday == Some(md))
    ensures XgSum(es, team, md) == 0.0
  {
    if es != [] {
      var init := es[..|es| - 1];
      assert forall e :: e in init ==> e in es;
      XgSumAbsent(init, team, md);
    }
  }

  // ---------------------------------------------------------------------
  // Nothing is lost by the reindex
  // ---------------------------------------------------------------------

  /** The total of the chart's values. */
  function PointTotal(ps: seq<XgPoint>): real {
    if ps == [] then 0.0 else ps[0].xg + PointTotal(ps[1..])
  }

  lemma {:induction false} PointTotalAppend(a: seq<XgPoint>, b: seq<XgPoint>)
    ensures PointTotal(a + b) == PointTotal(a) + PointTotal(b)
  {
    if a != [] {
      assert (a + b)[1..] == a[1..] + b;
      PointTotalAppend(a[1..], b);
    } else {
      assert a + b == b;
    }
  }

  function HitFn(e: Event, team: Label): int -> real {
    md => XgIn(e, team, md)
  }

  function TeamHitFn(e: Event, mds: seq<int>): Label -> real {
    team => SumOver(mds, HitFn(e, team))
  }

  lemma {:induction false} RowTotalSnoc(init: seq<Event>, e: Event, team: Label, mds: seq<int>)
    ensures PointTotal(XgRow(init + [e], team, mds)) == PointTotal(XgRow(init, team, mds)) + SumOver(mds, HitFn(e, team))
  {
    if mds != [] {
      RowTotalSnoc(init, e, team, mds[1..]);
      assert (init + [e])[..|init + [e]| - 1] == init;
      assert XgRow(init + [e], team, mds)[1..] == XgRow(init + [e], team, mds[1..]);
      assert XgRow(init, team, mds)[1..] == XgRow(init, team, mds[1..]);
    }
  }

  lemma {:induction false} GridTotalSnoc(init: seq<Event>, e: Event, teams: seq<Label>, mds: seq<int>)
    ensures PointTotal(XgGrid(init + [e], teams, mds)) == PointTotal(XgGrid(init, teams, mds)) + SumOver(teams, TeamHitFn(e, mds))
  {
    if teams != [] {
      GridTotalSnoc(init, e, teams[1..], mds);
      RowTotalSnoc(init, e, teams[0], mds);
      PointTotalAppend(XgRow(init + [e], teams[0], mds), XgGrid(init + [e], teams[1..], mds));
      PointTotalAppend(XgRow(init, teams[0], mds), XgGrid(init, teams[1..], mds));
    }
  }

  /** Whether a row's pair lies on the grid. */
  predicate OnGrid(e: Event, teams: seq<Label>, mds: seq<int>) {
    Cell(e, AttackingTeam).Some? && Cell(e, AttackingTeam).value in teams &&
    e.matchday.Some? && e.matchday.value in mds
  }

  /** Over distinct matchdays a row's contributions add up to its xG if its matchday is listed. */
  lemma RowHits(e: Event, team: Label, mds: seq<int>)
    requires Distinct(mds)
    ensures SumOver(mds, HitFn(e, team)) ==
            if Cell(e, AttackingTeam) == Some(team) && e.matchday.Some? && e.matchday.value in mds then RowXg(e) else 0.0
  {
    if e.matchday.Some? {
      SumOverSingle(mds, HitFn(e, team), e.matchday.value);
    } else {
      SumOverZero(mds, HitFn(e, team));
    }
  }

  /** Over distinct teams and matchdays a row is counted once if its pair is on the grid. */
  lemma GridHits(e: Event, teams: seq<Label>, mds: seq<int>)
    requires Distinct(teams) && Distinct(mds)
    ensures SumOver(teams, TeamHitFn(e, mds)) == if OnGrid(e, teams, mds) then RowXg(e) else 0.0
  {
    forall team ensures TeamHitFn(e, mds)(team) ==
        if Cell(e, AttackingTeam) == Some(team) && e.matchday.Some? && e.matchday.value in mds then RowXg(e) else 0.0 {
      RowHits(e, team, mds);
    }
    if Cell(e, AttackingTeam).Some? {
      SumOverSingle(teams, TeamHitFn(e, mds), Cell(e, AttackingTeam).value);
    } else {
      SumOverZero(teams, TeamHitFn(e, mds));
    }
  }

  /** The grid's total is the xG of the rows whose pair is on the grid. */
  lemma {:induction false} GridTotal(es: seq<Event>, teams: seq<Label>, mds: seq<int>)
    requires Distinct(teams) && Distinct(mds)
    requires forall e :: e in es ==> OnGrid(e, teams, mds)
    ensures PointTotal(XgGrid(es, teams, mds)) == TotalXg(es)
  {
    if es == [] {
      EmptyGrid(teams, mds);
    } else {
      var init, last := es[..|es| - 1], es[|es| - 1];
      assert es == init + [last];
      assert forall e :: e in init ==> e in es;
      GridTotal(init, teams, mds);
      GridTotalSnoc(init, last, teams, mds);
      GridHits(last, teams, mds);
    }
  }

  lemma {:induction false} EmptyGrid(teams: seq<Label>, mds: seq<int>)
    ensures PointTotal(XgGrid([], teams, mds)) == 0.0
  {
    if teams != [] {
      EmptyGrid(teams[1..], mds);
      EmptyRow(teams[0], mds);
      PointTotalAppend(XgRow([], teams[0], mds), XgGrid([], teams[1..], mds));
    }
  }

  lemma {:induction false} EmptyRow(team: Label, mds: seq<int>)
    ensures PointTotal(XgRow([], team, mds)) == 0.0
  {
    if mds != [] {
      EmptyRow(team, mds[1..]);
      assert XgRow([], team, mds)[1..] == XgRow([], team, mds[1..]);
    }
  }

  /**
   * Every filtered row has an attacking team among the selected ones and a
   * matchday of the table, so it lies on the grid.
   */
  lemma FilteredRowsOnGrid(t: Table, spec: FilterSpec)
    requires Filtered(t, spec).Success?
    ensures forall e :: e in Filtered(t, spec).value ==>
              OnGrid(e, Selection(spec, AttackingTeam), MatchdayDomain(t.events))
  {
    SelectedExact(t, spec, t.events);
    forall e | e in Filtered(t, spec).value
      ensures OnGrid(e, Selection(spec, AttackingTeam), MatchdayDomain(t.events))
    {
      FilteredRowsSatisfy(t, spec, e, AttackingTeam);
      assert e in t.events;
    }
  }

  /**
   * The reindex drops no xG: with a duplicate-free team selection the
   * chart's values add up to the total xG of the filtered rows.
   */
  lemma XgSeriesConservesTotal(t: Table, spec: FilterSpec)
    requires Filtered(t, spec).Success? && t.hasXg && Filtered(t, spec).value != []
    requires Distinct(Selection(spec, AttackingTeam))
    ensures PointTotal(XgSeries(t, Filtered(t, spec).value, Selection(spec, AttackingTeam)).value) ==
            TotalXg(Filtered(t, spec).value)
  {
    FilteredRowsOnGrid(t, spec);
    GridTotal(Filtered(t, spec).value, Selection(spec, AttackingTeam), MatchdayDomain(t.events));
  }
}
