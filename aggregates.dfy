/**
 * The figures the pages compute from the filtered rows: the "SI" counts of
 * the shot and goal columns, the shot percentage, the frequency table of a
 * column with its top ten, and the defensive ranking.
 */
module Aggregates {
  import opened Seqs
  import opened Events
  import opened Filters

  // ---------------------------------------------------------------------
  // "SI" flags
  // ---------------------------------------------------------------------

  function UpperChar(ch: char): char {
    if 'a' <= ch <= 'z' then (ch as int - 32) as char else ch
  }

  /** `str.upper()` on ASCII text. */
  function Upper(s: string): (r: string)
    ensures |r| == |s|
    ensures forall i :: 0 <= i < |s| ==> r[i] == UpperChar(s[i])
  {
    if s == [] then [] else [UpperChar(s[0])] + Upper(s[1..])
  }

  /** `x.str.upper() == "SI"` on the cell of column `c`; a null cell is not "SI". */
  predicate IsYes(e: Event, c: Column) {
    Cell(e, c).Some? && Upper(Cell(e, c).value) == "SI"
  }

  /** The flag is case-insensitive: exactly the four spellings of "si" count. */
  lemma YesSpellings(v: Label)
    ensures Upper(v) == "SI" <==> v in ["SI", "Si", "sI", "si"]
  {
    if Upper(v) == "SI" {
      assert UpperChar(v[0]) == 'S' && UpperChar(v[1]) == 'I';
      assert v == [v[0], v[1]];
    }
    if v in ["SI", "Si", "sI", "si"] {
      assert |v| == 2 && Upper(v)[0] == UpperChar(v[0]) && Upper(v)[1] == UpperChar(v[1]);
    }
  }

  function YesFn(c: Column): Event -> bool {
    e => IsYes(e, c)
  }

  /** `df[c].str.upper().eq("SI").sum()`. */
  function CountYes(es: seq<Event>, c: Column): (n: nat)
    ensures n <= |es|
  {
    if es == [] then 0
    else CountYes(es[..|es| - 1], c) + if IsYes(es[|es| - 1], c) then 1 else 0
  }

  /** No row is counted exactly when no row says "SI"; every row is counted exactly when all do. */
  lemma {:induction false} CountYesExtremes(es: seq<Event>, c: Column)
    ensures CountYes(es, c) == 0 <==> forall i :: 0 <= i < |es| ==> !IsYes(es[i], c)
    ensures CountYes(es, c) == |es| <==> forall i :: 0 <= i < |es| ==> IsYes(es[i], c)
  {
    if es != [] {
      var init, last := es[..|es| - 1], es[|es| - 1];
      CountYesExtremes(init, c);
      assert CountYes(es, c) == CountYes(init, c) + if IsYes(last, c) then 1 else 0;
      if CountYes(es, c) == 0 {
        forall i | 0 <= i < |es| ensures !IsYes(es[i], c) {
          if i < |init| {
            assert es[i] == init[i];
          }
        }
      }
      if CountYes(es, c) == |es| {
        forall i | 0 <= i < |es| ensures IsYes(es[i], c) {
          if i < |init| {
            assert es[i] == init[i];
          }
        }
      }
      if CountYes(es, c) != 0 && !IsYes(last, c) {
        var k :| 0 <= k < |init| && IsYes(init[k], c);
        assert es[k] == init[k];
      }
      if CountYes(es, c) != |es| && IsYes(last, c) {
        var k :| 0 <= k < |init| && !IsYes(init[k], c);
        assert es[k] == init[k];
      }
    }
  }

  /** The count is the number of rows the "SI" mask selects. */
  lemma {:induction false} CountYesIsMaskSize(es: seq<Event>, c: Column)
    ensures CountYes(es, c) == |FilterBy(es, YesFn(c))|
  {
    if es != [] {
      CountYesIsMaskSize(es[..|es| - 1], c);
    }
  }

  // ---------------------------------------------------------------------
  // Shot percentage
  // ---------------------------------------------------------------------

  /** A part over a positive whole lies in [0, 1], and is 0 or 1 only at the ends. */
  lemma Fraction(part: real, whole: real)
    requires 0.0 <= part <= whole && whole > 0.0
    ensures (part / whole) * whole == part
    ensures 0.0 <= part / whole <= 1.0
    ensures part / whole == 0.0 <==> part == 0.0
    ensures part / whole == 1.0 <==> part == whole
  {
    var q := part / whole;
    assert q * whole == part;
  }

  /** `tiros / total_abp * 100`, or 0 when there are no rows. */
  function ShotPercentage(es: seq<Event>): (r: real)
    ensures es == [] ==> r == 0.0
    ensures es != [] ==> r * (|es| as real) == 100.0 * (CountYes(es, Shot) as real)
    ensures 0.0 <= r <= 100.0
    ensures r == 0.0 <==> forall i :: 0 <= i < |es| ==> !IsYes(es[i], Shot)
    ensures r == 100.0 <==> es != [] && forall i :: 0 <= i < |es| ==> IsYes(es[i], Shot)
  {
    CountYesExtremes(es, Shot);
    if |es| == 0 then 0.0
    else
      var shots := CountYes(es, Shot) as real;
      var total := |es| as real;
      Fraction(shots, total);
      var q := shots / total;
      assert (q * 100.0) * total == 100.0 * (q * total);
      q * 100.0
  }

  // ---------------------------------------------------------------------
  // Frequency tables (value_counts) and the top ten executors
  // ---------------------------------------------------------------------

  datatype Frequency = Frequency(value: Label, count: nat)

  /** How many rows hold `v` in column `c`. */
  function Occurrences(es: seq<Event>, c: Column, v: Label): nat {
    |RowsWith(es, c, v)|
  }

  function FrequencyFn(es: seq<Event>, c: Column): Label -> Frequency {
    v => Frequency(v, Occurrences(es, c, v))
  }

  function ValueOf(f: Frequency): Label {
    f.value
  }

  /** The sort key of `value_counts`: larger counts first. */
  function DescendingCount(f: Frequency): real {
    -(f.count as real)
  }

  /** A value that occurs in the rows is counted at least once. */
  lemma OccurrencesPositive(es: seq<Event>, c: Column, v: Label)
    requires exists e :: e in es && Cell(e, c) == Some(v)
    ensures Occurrences(es, c, v) >= 1
  {
    RowsWithExact(es, c, v);
    var e :| e in es && Cell(e, c) == Some(v);
    assert e in RowsWith(es, c, v);
  }

  /** A value absent from the column is counted zero times. */
  lemma OccurrencesZero(es: seq<Event>, c: Column, v: Label)
    requires !exists e :: e in es && Cell(e, c) == Some(v)
    ensures Occurrences(es, c, v) == 0
  {
    RowsWithExact(es, c, v);
  }

  /** `df[c].value_counts()`: the distinct non-null values with their counts, most frequent first. */
  function ValueCounts(es: seq<Event>, c: Column): seq<Frequency> {
    SortByKey(MapSeq(DistinctValues(es, c), FrequencyFn(es, c)), DescendingCount)
  }

  /** Each entry carries the number of rows holding its value, which is at least one. */
  lemma ValueCountsEntries(es: seq<Event>, c: Column, i: nat)
    requires i < |ValueCounts(es, c)|
    ensures ValueCounts(es, c)[i].count == Occurrences(es, c, ValueCounts(es, c)[i].value) >= 1
    ensures exists e :: e in es && Cell(e, c) == Some(ValueCounts(es, c)[i].value)
  {
    var keys := DistinctValues(es, c);
    var f := FrequencyFn(es, c);
    SortedRecords(keys, f, ValueOf, DescendingCount);
    var r := ValueCounts(es, c);
    assert r[i] in r;
    var k :| k in keys && r[i] == f(k);
    OccurrencesPositive(es, c, k);
  }

  /** Every value present in the column has an entry. */
  lemma ValueCountsCovers(es: seq<Event>, c: Column, v: Label)
    requires exists e :: e in es && Cell(e, c) == Some(v)
    ensures exists i :: 0 <= i < |ValueCounts(es, c)| && ValueCounts(es, c)[i].value == v
  {
    var keys := DistinctValues(es, c);
    var f := FrequencyFn(es, c);
    SortedRecords(keys, f, ValueOf, DescendingCount);
    var r := ValueCounts(es, c);
    assert f(v) in r;
    var i :| 0 <= i < |r| && r[i] == f(v);
  }

  /** No value is listed twice and the counts never increase along the list. */
  lemma ValueCountsOrder(es: seq<Event>, c: Column)
    ensures forall i, j :: 0 <= i < j < |ValueCounts(es, c)| ==> ValueCounts(es, c)[i].value != ValueCounts(es, c)[j].value
    ensures forall i, j :: 0 <= i < j < |ValueCounts(es, c)| ==> ValueCounts(es, c)[i].count >= ValueCounts(es, c)[j].count
  {
    var keys := DistinctValues(es, c);
    var f := FrequencyFn(es, c);
    SortedRecords(keys, f, ValueOf, DescendingCount);
    var r := ValueCounts(es, c);
    forall i, j | 0 <= i < j < |r| ensures r[i].count >= r[j].count {
      assert DescendingCount(r[i]) <= DescendingCount(r[j]);
    }
  }

  /** `value_counts().head(10)` of the executor column. */
  function TopExecutors(es: seq<Event>): (r: seq<Frequency>)
    ensures |r| <= 10
    ensures |r| == if |ValueCounts(es, Executor)| <= 10 then |ValueCounts(es, Executor)| else 10
    ensures r == ValueCounts(es, Executor)[..|r|]
  {
    Head(ValueCounts(es, Executor), 10)
  }

  /**
   * The top ten really are the top: an executor missing from the list has
   * no more actions than anyone listed.
   */
  lemma TopExecutorsAreTop(es: seq<Event>, v: Label)
    requires forall i :: 0 <= i < |TopExecutors(es)| ==> TopExecutors(es)[i].value != v
    ensures forall i :: 0 <= i < |TopExecutors(es)| ==> Occurrences(es, Executor, v) <= TopExecutors(es)[i].count
  {
    var all := ValueCounts(es, Executor);
    var top := TopExecutors(es);
    if exists e :: e in es && Cell(e, Executor) == Some(v) {
      ValueCountsCovers(es, Executor, v);
      var k :| 0 <= k < |all| && all[k].value == v;
      ValueCountsEntries(es, Executor, k);
      SortedRecords(DistinctValues(es, Executor), FrequencyFn(es, Executor), ValueOf, DescendingCount);
      HeadIsTop(all, DescendingCount, ValueOf, 10, k);
    } else {
      OccurrencesZero(es, Executor, v);
    }
  }

  // ---------------------------------------------------------------------
  // Defensive ranking
  // ---------------------------------------------------------------------

  /**
   * One line of the ranking: a defending team, its actions (`ABP`), the
   * shots it received (`Tiros_Recibidos`) and, when the table has a goal
   * column, the goals it received (`Goles_Recibidos`).
   */
  datatype RankRow = RankRow(team: Label, actions: nat, shotsReceived: nat, goalsReceived: Option<nat>)

  /**
   * `Tiros/ABP`.  Every group has at least one row, so the zero branch is
   * only there to make the key total.
   */
  function ShotRatio(row: RankRow): real {
    if row.actions == 0 then 0.0 else (row.shotsReceived as real) / (row.actions as real)
  }

  /** `Goles/ABP`, present only when the goal column is. */
  function GoalRatio(row: RankRow): (r: Option<real>)
    ensures r.Some? <==> row.goalsReceived.Some?
    ensures r.Some? && row.actions > 0 ==> r.value * (row.actions as real) == row.goalsReceived.value as real
  {
    match row.goalsReceived
    case None => None
    case Some(g) => Some(if row.actions == 0 then 0.0 else (g as real) / (row.actions as real))
  }

  function TeamOf(row: RankRow): Label {
    row.team
  }

  /** The aggregates of one `groupby('equipo_defensor')` group. */
  function TeamRow(columns: set<Column>, es: seq<Event>, team: Label): RankRow {
    var g := RowsWith(es, DefendingTeam, team);
    RankRow(team, |g|, CountYes(g, Shot), if Goal in columns then Some(CountYes(g, Goal)) else None)
  }

  function TeamRowFn(columns: set<Column>, es: seq<Event>): Label -> RankRow {
    team => TeamRow(columns, es, team)
  }

  /**
   * `ranking.sort_values('Tiros/ABP')`: one line per defending team of the
   * rows, fewest shots received per action first.
   */
  function DefensiveRanking(columns: set<Column>, es: seq<Event>): seq<RankRow> {
    SortByKey(MapSeq(DistinctValues(es, DefendingTeam), TeamRowFn(columns, es)), ShotRatio)
  }

  /**
   * The aggregates of a team that occurs in the rows: at least one action,
   * no more shots or goals than actions, a ratio in [0, 1] that is shots
   * over actions, and a goal count exactly when the goal column exists.
   */
  lemma TeamRowBounds(columns: set<Column>, es: seq<Event>, team: Label)
    requires exists e :: e in es && Cell(e, DefendingTeam) == Some(team)
    ensures var row := TeamRow(columns, es, team);
      && row.actions >= 1
      && row.shotsReceived <= row.actions
      && ShotRatio(row) * (row.actions as real) == row.shotsReceived as real
      && 0.0 <= ShotRatio(row) <= 1.0
      && (row.goalsReceived.Some? <==> Goal in columns)
      && (row.goalsReceived.Some? ==> row.goalsReceived.value <= row.actions)
  {
    OccurrencesPositive(es, DefendingTeam, team);
    var row := TeamRow(columns, es, team);
    Fraction(row.shotsReceived as real, row.actions as real);
  }

  /** Every line is the aggregate of the group of a team present in the rows. */
  lemma RankingEntries(columns: set<Column>, es: seq<Event>, i: nat)
    requires i < |DefensiveRanking(columns, es)|
    ensures DefensiveRanking(columns, es)[i] == TeamRow(columns, es, DefensiveRanking(columns, es)[i].team)
    ensures exists e :: e in es && Cell(e, DefendingTeam) == Some(DefensiveRanking(columns, es)[i].team)
  {
    var keys := DistinctValues(es, DefendingTeam);
    var f := TeamRowFn(columns, es);
    SortedRecords(keys, f, TeamOf, ShotRatio);
    var r := DefensiveRanking(columns, es);
    assert r[i] in r;
    var k :| k in keys && r[i] == f(k);
  }

  /** Every defending team present in the rows has a line. */
  lemma RankingCovers(columns: set<Column>, es: seq<Event>, team: Label)
    requires exists e :: e in es && Cell(e, DefendingTeam) == Some(team)
    ensures exists i :: 0 <= i < |DefensiveRanking(columns, es)| && DefensiveRanking(columns, es)[i].team == team
  {
    var keys := DistinctValues(es, DefendingTeam);
    var f := TeamRowFn(columns, es);
    SortedRecords(keys, f, TeamOf, ShotRatio);
    var r := DefensiveRanking(columns, es);
    assert f(team) in r;
    var i :| 0 <= i < |r| && r[i] == f(team);
  }

  /** No team is listed twice and the shots-per-action ratio never decreases along the list. */
  lemma RankingOrder(columns: set<Column>, es: seq<Event>)
    ensures forall i, j :: 0 <= i < j < |DefensiveRanking(columns, es)| ==>
              DefensiveRanking(columns, es)[i].team != DefensiveRanking(columns, es)[j].team
    ensures forall i, j :: 0 <= i < j < |DefensiveRanking(columns, es)| ==>
              ShotRatio(DefensiveRanking(columns, es)[i]) <= ShotRatio(DefensiveRanking(columns, es)[j])
  {
    SortedRecords(DistinctValues(es, DefendingTeam), TeamRowFn(columns, es), TeamOf, ShotRatio);
  }

  /** The bar chart: the first ten lines of the sorted ranking. */
  function RankingChart(columns: set<Column>, es: seq<Event>): (r: seq<RankRow>)
    ensures |r| == if |DefensiveRanking(columns, es)| <= 10 then |DefensiveRanking(columns, es)| else 10
    ensures r == DefensiveRanking(columns, es)[..|r|]
  {
    Head(DefensiveRanking(columns, es), 10)
  }

  /** A defending team left off the chart concedes shots at no lower rate than any team on it. */
  lemma RankingChartIsTop(columns: set<Column>, es: seq<Event>, team: Label)
    requires exists e :: e in es && Cell(e, DefendingTeam) == Some(team)
    requires forall i :: 0 <= i < |RankingChart(columns, es)| ==> RankingChart(columns, es)[i].team != team
    ensures forall i :: 0 <= i < |RankingChart(columns, es)| ==>
              ShotRatio(RankingChart(columns, es)[i]) <= ShotRatio(TeamRow(columns, es, team))
  {
    var all := DefensiveRanking(columns, es);
    var chart := RankingChart(columns, es);
    RankingCovers(columns, es, team);
    var k :| 0 <= k < |all| && all[k].team == team;
    RankingEntries(columns, es, k);
    SortedRecords(DistinctValues(es, DefendingTeam), TeamRowFn(columns, es), TeamOf, ShotRatio);
    HeadIsTop(all, ShotRatio, TeamOf, 10, k);
  }


  /**
   * The goal column is one the filter requires, so on any page that got
   * past the filter the goal count is always shown: every ranking line has
   * one, and the `'gol' in columns` tests never fail.
   */
  lemma GoalsAlwaysCounted(t: Table, spec: FilterSpec, i: nat)
    requires Filtered(t, spec).Success?
    requires i < |DefensiveRanking(t.columns, Filtered(t, spec).value)|
    ensures Goal in t.columns
    ensures DefensiveRanking(t.columns, Filtered(t, spec).value)[i].goalsReceived.Some?
  {
    assert Goal in RequiredColumns;
    var rows := Filtered(t, spec).value;
    RankingEntries(t.columns, rows, i);
    TeamRowBounds(t.columns, rows, DefensiveRanking(t.columns, rows)[i].team);
  }
}
