/**
 * Per-matchday series: the number of actions on each matchday
 * (`groupby('jornada').size()`) and the two-team comparison that joins two
 * such series on the matchday with an outer merge, filling gaps with 0.
 */
module Series {
  import opened Seqs
  import opened Events
  import opened Filters

  /** One group of `groupby('jornada').size()`. */
  datatype DayCount = DayCount(matchday: int, actions: nat)

  function OnDayFn(md: int): Event -> bool {
    (e: Event) => e.matchday == Some(md)
  }

  /** The rows played on matchday `md`. */
  function RowsOnDay(es: seq<Event>, md: int): seq<Event> {
    FilterBy(es, OnDayFn(md))
  }

  function DayCountFn(es: seq<Event>): int -> DayCount {
    md => DayCount(md, |RowsOnDay(es, md)|)
  }

  /** `df.groupby('jornada').size()`: rows without a numeric matchday form no group. */
  function CountsByMatchday(es: seq<Event>): seq<DayCount> {
    MapSeq(MatchdayDomain(es), DayCountFn(es))
  }

  predicate DaysAscending(a: seq<DayCount>) {
    forall i, j :: 0 <= i < j < |a| ==> a[i].matchday < a[j].matchday
  }

  predicate HasDay(a: seq<DayCount>, md: int) {
    exists i :: 0 <= i < |a| && a[i].matchday == md
  }

  /** A matchday that occurs in the rows has at least one row on it. */
  lemma RowsOnDayPresent(es: seq<Event>, md: int)
    requires exists e :: e in es && e.matchday == Some(md)
    ensures |RowsOnDay(es, md)| >= 1
  {
    FilterByExact(es, OnDayFn(md));
    var e :| e in es && e.matchday == Some(md);
    assert e in RowsOnDay(es, md);
  }

  /** A matchday that occurs in no row has no rows. */
  lemma RowsOnDayAbsent(es: seq<Event>, md: int)
    requires !exists e :: e in es && e.matchday == Some(md)
    ensures RowsOnDay(es, md) == []
  {
    FilterByExact(es, OnDayFn(md));
  }

  /**
   * The groups come in ascending matchday order, one per matchday that
   * occurs in the rows, each with the number of rows on that matchday.
   */
  lemma CountsByMatchdayCorrect(es: seq<Event>)
    ensures DaysAscending(CountsByMatchday(es))
    ensures forall md :: HasDay(CountsByMatchday(es), md) <==> exists e :: e in es && e.matchday == Some(md)
    ensures forall i :: 0 <= i < |CountsByMatchday(es)| ==>
              CountsByMatchday(es)[i].actions == |RowsOnDay(es, CountsByMatchday(es)[i].matchday)| >= 1
  {
    var d := MatchdayDomain(es);
    var r := CountsByMatchday(es);
    forall i | 0 <= i < |r| ensures r[i].actions == |RowsOnDay(es, r[i].matchday)| >= 1 {
      assert r[i].matchday == d[i] && d[i] in d;
      RowsOnDayPresent(es, d[i]);
    }
    forall md ensures HasDay(r, md) <==> exists e :: e in es && e.matchday == Some(md) {
      if md in d {
        var i :| 0 <= i < |d| && d[i] == md;
        assert r[i].matchday == md;
      }
    }
  }

  // ---------------------------------------------------------------------
  // Counting the grouped rows back
  // ---------------------------------------------------------------------

  /** The total of a count column. */
  function TotalActions(a: seq<DayCount>): nat {
    if a == [] then 0 else a[0].actions + TotalActions(a[1..])
  }

  /** How many keys of `ks` equal the matchday `md` (a NaN matchday matches none). */
  function Hits(ks: seq<int>, md: Option<int>): nat {
    if ks == [] then 0 else (if md == Some(ks[0]) then 1 else 0) + Hits(ks[1..], md)
  }

  lemma {:induction false} HitsDistinct(ks: seq<int>, md: Option<int>)
    requires Distinct(ks)
    ensures Hits(ks, md) == if md.Some? && md.value in ks then 1 else 0
  {
    if ks != [] {
      assert Distinct(ks[1..]) by {
        forall i, j | 0 <= i < j < |ks[1..]| ensures ks[1..][i] != ks[1..][j] {
          assert ks[1..][i] == ks[i + 1] && ks[1..][j] == ks[j + 1];
        }
      }
      HitsDistinct(ks[1..], md);
      if md == Some(ks[0]) {
        forall i | 0 <= i < |ks[1..]| ensures ks[1..][i] != ks[0] {
          assert ks[1..][i] == ks[i + 1];
        }
      }
      assert md.Some? && md.value in ks <==> md == Some(ks[0]) || (md.Some? && md.value in ks[1..]) by {
        assert ks == [ks[0]] + ks[1..];
      }
    }
  }

  /** Adding a row to the table adds it to the group of its matchday, if that is among `ks`. */
  lemma {:induction false} TotalActionsSnoc(ks: seq<int>, init: seq<Event>, e: Event)
    ensures TotalActions(MapSeq(ks, DayCountFn(init + [e]))) ==
            TotalActions(MapSeq(ks, DayCountFn(init))) + Hits(ks, e.matchday)
  {
    if ks != [] {
      TotalActionsSnoc(ks[1..], init, e);
      FilterBySnoc(init, e, OnDayFn(ks[0]));
    }
  }

  /** The count of rows with a numeric matchday. */
  function DatedRows(es: seq<Event>): nat {
    if es == [] then 0 else DatedRows(es[..|es| - 1]) + if es[|es| - 1].matchday.Some? then 1 else 0
  }

  lemma {:induction false} TotalOverKeys(es: seq<Event>, ks: seq<int>)
    requires Distinct(ks)
    requires forall e :: e in es && e.matchday.Some? ==> e.matchday.value in ks
    ensures TotalActions(MapSeq(ks, DayCountFn(es))) == DatedRows(es)
  {
    if es == [] {
      EmptyGroups(ks);
    } else {
      var init, last := es[..|es| - 1], es[|es| - 1];
      assert es == init + [last];
      assert forall e :: e in init ==> e in es;
      TotalOverKeys(init, ks);
      TotalActionsSnoc(ks, init, last);
      HitsDistinct(ks, last.matchday);
    }
  }

  lemma {:induction false} EmptyGroups(ks: seq<int>)
    ensures TotalActions(MapSeq(ks, DayCountFn([]))) == 0
  {
    if ks != [] {
      EmptyGroups(ks[1..]);
    }
  }

  /** Grouping by matchday loses no row that has a numeric matchday and counts none twice. */
  lemma CountsByMatchdayTotal(es: seq<Event>)
    ensures TotalActions(CountsByMatchday(es)) == DatedRows(es)
  {
    TotalOverKeys(es, MatchdayDomain(es));
  }

  // ---------------------------------------------------------------------
  // The outer merge
  // ---------------------------------------------------------------------

  /** One line of the merged frame: a matchday and the two teams' counts. */
  datatype ComparisonRow = ComparisonRow(matchday: int, first: nat, second: nat)

  predicate RowsAscending(r: seq<ComparisonRow>) {
    forall i, j :: 0 <= i < j < |r| ==> r[i].matchday < r[j].matchday
  }

  predicate HasRow(r: seq<ComparisonRow>, md: int) {
    exists i :: 0 <= i < |r| && r[i].matchday == md
  }

  /** The count of matchday `md`, or 0 when `a` has no such group (`fillna(0)`). */
  function CountOn(a: seq<DayCount>, md: int): nat {
    if a == [] then 0 else if a[0].matchday == md then a[0].actions else CountOn(a[1..], md)
  }

  /**
   * `pd.merge(a, b, on='jornada', how='outer').fillna(0)` on two
   * ascending series: the union of the matchdays in ascending order.
   */
  function OuterMerge(a: seq<DayCount>, b: seq<DayCount>): seq<ComparisonRow>
    decreases |a| + |b|
  {
    if a == [] && b == [] then []
    else if b == [] || (a != [] && a[0].matchday < b[0].matchday) then
      [ComparisonRow(a[0].matchday, a[0].actions, 0)] + OuterMerge(a[1..], b)
    else if a == [] || b[0].matchday < a[0].matchday then
      [ComparisonRow(b[0].matchday, 0, b[0].actions)] + OuterMerge(a, b[1..])
    else
      [ComparisonRow(a[0].matchday, a[0].actions, b[0].actions)] + OuterMerge(a[1..], b[1..])
  }

  lemma HasDayCons(a: seq<DayCount>, md: int)
    requires a != []
    ensures HasDay(a, md) <==> a[0].matchday == md || HasDay(a[1..], md)
  {
    if HasDay(a, md) && a[0].matchday != md {
      var i :| 0 <= i < |a| && a[i].matchday == md;
      assert a[1..][i - 1] == a[i];
    }
    if HasDay(a[1..], md) {
      var i :| 0 <= i < |a[1..]| && a[1..][i].matchday == md;
      assert a[i + 1] == a[1..][i];
    }
  }

  lemma HasRowCons(r: seq<ComparisonRow>, md: int)
    requires r != []
    ensures HasRow(r, md) <==> r[0].matchday == md || HasRow(r[1..], md)
  {
    if HasRow(r, md) && r[0].matchday != md {
      var i :| 0 <= i < |r| && r[i].matchday == md;
      assert r[1..][i - 1] == r[i];
    }
    if HasRow(r[1..], md) {
      var i :| 0 <= i < |r[1..]| && r[1..][i].matchday == md;
      assert r[i + 1] == r[1..][i];
    }
  }

  /** Every matchday after the first of an ascending series is larger than the first. */
  lemma AscendingTail(a: seq<DayCount>)
    requires a != [] && DaysAscending(a)
    ensures DaysAscending(a[1..])
    ensures forall md :: HasDay(a[1..], md) ==> a[0].matchday < md
  {
    forall md | HasDay(a[1..], md) ensures a[0].matchday < md {
      var i :| 0 <= i < |a[1..]| && a[1..][i].matchday == md;
      assert a[i + 1] == a[1..][i];
    }
  }

  lemma {:induction false} CountOnAbsent(a: seq<DayCount>, md: int)
    requires !HasDay(a, md)
    ensures CountOn(a, md) == 0
  {
    if a != [] {
      HasDayCons(a, md);
      CountOnAbsent(a[1..], md);
    }
  }

  /**
   * The merge of two ascending series is ascending, holds exactly the
   * matchdays of either, and each line carries both sides' counts for its
   * matchday, 0 where a side has none.
   */
  lemma {:induction false} OuterMergeCorrect(a: seq<DayCount>, b: seq<DayCount>)
    requires DaysAscending(a) && DaysAscending(b)
    ensures RowsAscending(OuterMerge(a, b))
    ensures forall md :: HasRow(OuterMerge(a, b), md) <==> HasDay(a, md) || HasDay(b, md)
    ensures forall i :: 0 <= i < |OuterMerge(a, b)| ==>
              OuterMerge(a, b)[i].first == CountOn(a, OuterMerge(a, b)[i].matchday) &&
              OuterMerge(a, b)[i].second == CountOn(b, OuterMerge(a, b)[i].matchday)
    decreases |a| + |b|
  {
    var r := OuterMerge(a, b);
    if a == [] && b == [] {
    } else if b == [] || (a != [] && a[0].matchday < b[0].matchday) {
      AscendingTail(a);
      OuterMergeCorrect(a[1..], b);
      var m := OuterMerge(a[1..], b);
      var md0 := a[0].matchday;
      assert r == [ComparisonRow(md0, a[0].actions, 0)] + m;
      assert !HasDay(b, md0) by {
        if b != [] {
          AscendingTail(b);
          HasDayCons(b, md0);
        }
      }
      CountOnAbsent(b, md0);
      forall md ensures HasRow(r, md) <==> HasDay(a, md) || HasDay(b, md) {
        HasRowCons(r, md);
        assert r[1..] == m;
        HasDayCons(a, md);
      }
      forall k | 0 <= k < |m| ensures md0 < m[k].matchday {
        assert HasRow(m, m[k].matchday);
        if b != [] {
          AscendingTail(b);
          HasDayCons(b, m[k].matchday);
        }
      }
    } else if a == [] || b[0].matchday < a[0].matchday {
      AscendingTail(b);
      OuterMergeCorrect(a, b[1..]);
      var m := OuterMerge(a, b[1..]);
      var md0 := b[0].matchday;
      assert r == [ComparisonRow(md0, 0, b[0].actions)] + m;
      assert !HasDay(a, md0) by {
        if a != [] {
          AscendingTail(a);
          HasDayCons(a, md0);
        }
      }
      CountOnAbsent(a, md0);
      forall md ensures HasRow(r, md) <==> HasDay(a, md) || HasDay(b, md) {
        HasRowCons(r, md);
        assert r[1..] == m;
        HasDayCons(b, md);
      }
      forall k | 0 <= k < |m| ensures md0 < m[k].matchday {
        assert HasRow(m, m[k].matchday);
        if a != [] {
          AscendingTail(a);
          HasDayCons(a, m[k].matchday);
        }
      }
    } else {
      AscendingTail(a);
      AscendingTail(b);
      OuterMergeCorrect(a[1..], b[1..]);
      var m := OuterMerge(a[1..], b[1..]);
      var md0 := a[0].matchday;
      assert r == [ComparisonRow(md0, a[0].actions, b[0].actions)] + m;
      forall md ensures HasRow(r, md) <==> HasDay(a, md) || HasDay(b, md) {
        HasRowCons(r, md);
        assert r[1..] == m;
        HasDayCons(a, md);
        HasDayCons(b, md);
      }
      forall k | 0 <= k < |m| ensures md0 < m[k].matchday {
        assert HasRow(m, m[k].matchday);
      }
    }
  }

  /** In an ascending series the count looked up for a listed matchday is that group's count. */
  lemma {:induction false} CountOnListed(a: seq<DayCount>, i: nat)
    requires DaysAscending(a) && i < |a|
    ensures CountOn(a, a[i].matchday) == a[i].actions
  {
    if i > 0 {
      AscendingTail(a);
      assert a[1..][i - 1] == a[i];
      CountOnListed(a[1..], i - 1);
    }
  }

  /** Looking a matchday up in the grouped series gives the number of rows on it, 0 included. */
  lemma CountOnGroups(es: seq<Event>, md: int)
    ensures CountOn(CountsByMatchday(es), md) == |RowsOnDay(es, md)|
  {
    var a := CountsByMatchday(es);
    CountsByMatchdayCorrect(es);
    if HasDay(a, md) {
      var i :| 0 <= i < |a| && a[i].matchday == md;
      CountOnListed(a, i);
    } else {
      CountOnAbsent(a, md);
      RowsOnDayAbsent(es, md);
    }
  }

  // ---------------------------------------------------------------------
  // The two-team comparison
  // ---------------------------------------------------------------------

  /**
   * The comparison chart's data for the filtered rows of two teams, with
   * the two counts kept by position; `None` where the page shows "not
   * enough data" because either side has no rows.
   */
  function TeamComparison(rows1: seq<Event>, rows2: seq<Event>): (r: Option<seq<ComparisonRow>>)
    ensures r.None? <==> rows1 == [] || rows2 == []
  {
    if rows1 == [] || rows2 == [] then None
    else Some(OuterMerge(CountsByMatchday(rows1), CountsByMatchday(rows2)))
  }

  /**
   * The comparison lists, in ascending order, every matchday on which
   * either team has a row, with each team's number of rows on it.
   */
  lemma TeamComparisonCorrect(rows1: seq<Event>, rows2: seq<Event>)
    requires rows1 != [] && rows2 != []
    ensures RowsAscending(TeamComparison(rows1, rows2).value)
    ensures forall md :: HasRow(TeamComparison(rows1, rows2).value, md) <==>
              (exists e :: e in rows1 && e.matchday == Some(md)) || (exists e :: e in rows2 && e.matchday == Some(md))
    ensures forall i :: 0 <= i < |TeamComparison(rows1, rows2).value| ==>
              var row := TeamComparison(rows1, rows2).value[i];
              row.first == |RowsOnDay(rows1, row.matchday)| && row.second == |RowsOnDay(rows2, row.matchday)|
  {
    var a, b := CountsByMatchday(rows1), CountsByMatchday(rows2);
    CountsByMatchdayCorrect(rows1);
    CountsByMatchdayCorrect(rows2);
    OuterMergeCorrect(a, b);
    var r := OuterMerge(a, b);
    forall i | 0 <= i < |r|
      ensures r[i].first == |RowsOnDay(rows1, r[i].matchday)| && r[i].second == |RowsOnDay(rows2, r[i].matchday)|
    {
      CountOnGroups(rows1, r[i].matchday);
      CountOnGroups(rows2, r[i].matchday);
    }
  }

  /** Comparing a team with itself is well defined: both columns agree on every matchday. */
  lemma SameTeamComparison(rows: seq<Event>)
    requires rows != []
    ensures TeamComparison(rows, rows).Some?
    ensures forall i :: 0 <= i < |TeamComparison(rows, rows).value| ==>
              TeamComparison(rows, rows).value[i].first == TeamComparison(rows, rows).value[i].second
  {
    TeamComparisonCorrect(rows, rows);
  }

  /**
   * The page filters each team's rows with the sidebar filter; the result
   * is that team's share of the filtered table.
   */
  lemma TeamRowsAreFilteredShare(t: Table, spec: FilterSpec, team: Label)
    ensures Filtered(t.(events := RowsWith(t.events, AttackingTeam, team)), spec) ==
            match Filtered(t, spec)
            case Success(rows) => Success(RowsWith(rows, AttackingTeam, team))
            case Failure(err) => Failure(err)
  {
    var t' := t.(events := RowsWith(t.events, AttackingTeam, team));
    assert forall c :: Applied(t', spec, c) == Applied(t, spec, c);
    FilterByCongruent(t'.events, KeepFn(t', spec), KeepFn(t, spec));
    FilterCommutesWithTeam(t, spec, t.events, team);
  }

  // ---------------------------------------------------------------------
  // The merged frame's labels, as the page builds them
  // ---------------------------------------------------------------------

  /**
   * The column labels of the merged frame: each side's count column is
   * named after its team, and when the two names clash pandas renames
   * them with the suffixes `_x` and `_y`.
   */
  function MergedColumns(name1: Label, name2: Label): (r: seq<Label>)
    ensures |r| == 3 && r[0] == "jornada"
    ensures name1 != name2 ==> name1 in r && name2 in r
    ensures name1 == name2 && name1 != "jornada" ==> name1 !in r
  {
    if name1 == name2 then ["jornada", name1 + "_x", name2 + "_y"] else ["jornada", name1, name2]
  }

  /**
   * The chart then looks each team's column up by the team's name, which
   * fails when both selectors hold the same team: a KeyError for a frame
   * whose count columns are `<team>_x` and `<team>_y`.
   */
  lemma SameTeamLookupFails(team: Label)
    requires team != "jornada"
    ensures team !in MergedColumns(team, team)
    ensures team + "_x" in MergedColumns(team, team) && team + "_y" in MergedColumns(team, team)
  {
  }
}
