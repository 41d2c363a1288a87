/**
 * The filter engine (`aplicar_filtros`): the rows of the table that lie
 * in the selected matchday range and belong to every applied column
 * selection.  Seven columns are always applied; the others only when their
 * selection is non-empty and the table has the column.
 *
 * `Selected` states the result declaratively, row by row; `ApplyFilters`
 * builds the boolean mask step by step as the page does and is proved to
 * agree with it.
 */
module Filters {
  import opened Seqs
  import opened Events

  /**
   * The page's current selections: the matchday slider range
   * `jornada_sel` and one list per categorical column (`temporada_sel`,
   * `tipo_abp_sel`, ...).  A column without an entry stands for an empty
   * list, which the page always has for a column without options.
   */
  datatype FilterSpec = FilterSpec(matchdays: (int, int), selections: map<Column, seq<Label>>)

  /** `df[col]` on a column the table does not have (pandas raises KeyError). */
  datatype FilterError = MissingColumn(column: Column)

  datatype Result<T> = Success(value: T) | Failure(error: FilterError)

  /** The selections applied unconditionally, in the order of the mask expression. */
  const RequiredColumns: seq<Column> :=
    [Season, SetPieceType, Executor, Shot, Goal, AttackingTeam, DefendingTeam]

  /** The selections applied only when non-empty and present, in the page's order. */
  const OptionalColumns: seq<Column> :=
    [AttackerPhase, Half, TimeBucket, DefendingKeeper, AttackerSituation,
     DefenderSituation, AttackingKeeper, Target, ExecutionType, DefenderPhase]

  /** The columns whose selection is always applied. */
  predicate IsRequired(c: Column) {
    c.Season? || c.SetPieceType? || c.Executor? || c.Shot? || c.Goal? ||
    c.AttackingTeam? || c.DefendingTeam?
  }

  /** Every column is either required or optional, never both. */
  lemma ColumnsPartitioned(c: Column)
    ensures IsRequired(c) <==> c in RequiredColumns
    ensures !IsRequired(c) <==> c in OptionalColumns
  {
  }

  /** The position of an optional column in the page's order. */
  function OptionalIndex(c: Column): (j: nat)
    requires !IsRequired(c)
    ensures j < |OptionalColumns| && OptionalColumns[j] == c
  {
    match c
    case AttackerPhase => 0
    case Half => 1
    case TimeBucket => 2
    case DefendingKeeper => 3
    case AttackerSituation => 4
    case DefenderSituation => 5
    case AttackingKeeper => 6
    case Target => 7
    case ExecutionType => 8
    case DefenderPhase => 9
  }

  function Selection(spec: FilterSpec, c: Column): seq<Label> {
    if c in spec.selections then spec.selections[c] else []
  }

  /** `spec` with the selection of `c` replaced by `sel`. */
  function WithSelection(spec: FilterSpec, c: Column, sel: seq<Label>): FilterSpec {
    spec.(selections := spec.selections[c := sel])
  }

  /** `df[c].isin(sel)` for one row: a null cell is never a member. */
  predicate IsIn(e: Event, c: Column, sel: seq<Label>) {
    Cell(e, c).Some? && Cell(e, c).value in sel
  }

  /** `df['jornada'].between(lo, hi)`: inclusive at both ends; NaN never passes. */
  predicate InRange(e: Event, range: (int, int)) {
    e.matchday.Some? && range.0 <= e.matchday.value <= range.1
  }

  /** Whether the selection of column `c` takes part in the conjunction. */
  predicate Applied(t: Table, spec: FilterSpec, c: Column) {
    IsRequired(c) || (Selection(spec, c) != [] && c in t.columns)
  }

  /** A row passes the filter. */
  predicate Keep(t: Table, spec: FilterSpec, e: Event) {
    && InRange(e, spec.matchdays)
    && forall c :: Applied(t, spec, c) ==> IsIn(e, c, Selection(spec, c))
  }

  function KeepFn(t: Table, spec: FilterSpec): Event -> bool {
    e => Keep(t, spec, e)
  }

  /** The rows of `es` that pass, in their original order (`df[condiciones]`). */
  function Selected(t: Table, spec: FilterSpec, es: seq<Event>): seq<Event> {
    FilterBy(es, KeepFn(t, spec))
  }

  /** The first required column the table lacks. */
  function FirstMissing(cols: seq<Column>, present: set<Column>): (r: Option<Column>)
    ensures r.None? <==> forall c :: c in cols ==> c in present
    ensures r.Some? ==> r.value in cols && r.value !in present
    ensures r.Some? ==> exists i :: 0 <= i < |cols| && cols[i] == r.value && forall j :: 0 <= j < i ==> cols[j] in present
  {
    if cols == [] then None
    else if cols[0] !in present then Some(cols[0])
    else
      var rest := FirstMissing(cols[1..], present);
      if rest.Some? then
        var i :| 0 <= i < |cols[1..]| && cols[1..][i] == rest.value && forall j :: 0 <= j < i ==> cols[1..][j] in present;
        assert cols[i + 1] == rest.value;
        assert forall j :: 0 <= j < i + 1 ==> cols[j] in present by {
          forall j | 0 <= j < i + 1 ensures cols[j] in present {
            if j > 0 { assert cols[j] == cols[1..][j - 1]; }
          }
        }
        rest
      else
        rest
  }

  lemma {:induction false} FirstMissingAgrees(cols: seq<Column>, p: set<Column>, q: set<Column>)
    requires forall c :: c in cols ==> (c in p <==> c in q)
    ensures FirstMissing(cols, p) == FirstMissing(cols, q)
  {
    if cols != [] {
      FirstMissingAgrees(cols[1..], p, q);
    }
  }

  /** What `aplicar_filtros(df)` returns, or the KeyError it raises. */
  function Filtered(t: Table, spec: FilterSpec): (r: Result<seq<Event>>)
    ensures r.Failure? <==> exists c :: c in RequiredColumns && c !in t.columns
    ensures r.Failure? ==> r.error.column in RequiredColumns && r.error.column !in t.columns
    ensures r.Failure? ==> exists i :: 0 <= i < |RequiredColumns| && RequiredColumns[i] == r.error.column &&
                            forall j :: 0 <= j < i ==> RequiredColumns[j] in t.columns
  {
    match FirstMissing(RequiredColumns, t.columns)
    case Some(c) => Failure(MissingColumn(c))
    case None => Success(Selected(t, spec, t.events))
  }

  // ---------------------------------------------------------------------
  // The page's mask construction
  // ---------------------------------------------------------------------

  /** The first mask term: the range test and the seven required memberships. */
  predicate BaseCondition(spec: FilterSpec, e: Event) {
    && IsIn(e, Season, Selection(spec, Season))
    && IsIn(e, SetPieceType, Selection(spec, SetPieceType))
    && InRange(e, spec.matchdays)
    && IsIn(e, Executor, Selection(spec, Executor))
    && IsIn(e, Shot, Selection(spec, Shot))
    && IsIn(e, Goal, Selection(spec, Goal))
    && IsIn(e, AttackingTeam, Selection(spec, AttackingTeam))
    && IsIn(e, DefendingTeam, Selection(spec, DefendingTeam))
  }

  /** The optional terms among the first `k` that were applied and that row `e` meets. */
  predicate OptionalPrefixHolds(t: Table, spec: FilterSpec, e: Event, k: nat)
    requires k <= |OptionalColumns|
  {
    forall j :: 0 <= j < k && Applied(t, spec, OptionalColumns[j]) ==>
      IsIn(e, OptionalColumns[j], Selection(spec, OptionalColumns[j]))
  }

  /**
   * `aplicar_filtros`: builds the mask `condiciones`, then keeps the rows
   * whose mask entry is true (`df[condiciones]`).  A required column the
   * table lacks raises before any row is looked at.
   */
  method ApplyFilters(t: Table, spec: FilterSpec) returns (r: Result<seq<Event>>)
    ensures r == Filtered(t, spec)
  {
    var missing := FirstMissing(RequiredColumns, t.columns);
    if missing.Some? {
      return Failure(MissingColumn(missing.value));
    }
    var condition := BuildMask(t, spec, t.events);
    var kept := SelectMasked(t, spec, t.events, condition);
    return Success(kept);
  }

  /**
   * The mask: the conjunction of the base terms, then each optional
   * membership whose selection is non-empty and whose column exists.
   */
  method BuildMask(t: Table, spec: FilterSpec, rows: seq<Event>) returns (condition: seq<bool>)
    ensures |condition| == |rows|
    ensures forall i :: 0 <= i < |rows| ==> condition[i] == Keep(t, spec, rows[i])
  {
    var n := |rows|;
    condition := seq(n, i requires 0 <= i < n => BaseCondition(spec, rows[i]));
    var k := 0;
    while k < |OptionalColumns|
      invariant 0 <= k <= |OptionalColumns| && |condition| == n
      invariant forall i :: 0 <= i < n ==>
        condition[i] == (BaseCondition(spec, rows[i]) && OptionalPrefixHolds(t, spec, rows[i], k))
    {
      var c := OptionalColumns[k];
      var sel := Selection(spec, c);
      OptionalNotRequired(k);
      forall i | 0 <= i < n
        ensures OptionalPrefixHolds(t, spec, rows[i], k + 1) ==
                (OptionalPrefixHolds(t, spec, rows[i], k) && (sel != [] && c in t.columns ==> IsIn(rows[i], c, sel)))
      {
        OptionalPrefixStep(t, spec, rows[i], k);
      }
      if sel != [] && c in t.columns {
        condition := seq(n, i requires 0 <= i < n => condition[i] && IsIn(rows[i], c, sel));
      }
      k := k + 1;
    }
    forall i | 0 <= i < n ensures condition[i] == Keep(t, spec, rows[i]) {
      MaskMatchesKeep(t, spec, rows[i]);
    }
  }

  lemma OptionalNotRequired(k: nat)
    requires k < |OptionalColumns|
    ensures !IsRequired(OptionalColumns[k])
  {
  }

  /** One more optional term: the prefix condition gains that term when it is applied. */
  lemma OptionalPrefixStep(t: Table, spec: FilterSpec, e: Event, k: nat)
    requires k < |OptionalColumns|
    ensures OptionalPrefixHolds(t, spec, e, k + 1) ==
            (OptionalPrefixHolds(t, spec, e, k) &&
             (Applied(t, spec, OptionalColumns[k]) ==> IsIn(e, OptionalColumns[k], Selection(spec, OptionalColumns[k]))))
  {
  }

  /** `df[condiciones]`: the rows whose mask entry is true, in order. */
  method SelectMasked(t: Table, spec: FilterSpec, rows: seq<Event>, condition: seq<bool>) returns (kept: seq<Event>)
    requires |condition| == |rows|
    requires forall i :: 0 <= i < |rows| ==> condition[i] == Keep(t, spec, rows[i])
    ensures kept == Selected(t, spec, rows)
  {
    kept := [];
    var i := 0;
    while i < |rows|
      invariant 0 <= i <= |rows|
      invariant kept == Selected(t, spec, rows[..i])
    {
      assert rows[..i + 1] == rows[..i] + [rows[i]];
      FilterBySnoc(rows[..i], rows[i], KeepFn(t, spec));
      if condition[i] {
        kept := kept + [rows[i]];
      }
      i := i + 1;
    }
    assert rows[..i] == rows;
  }

  /** The mask the page builds for a row agrees with `Keep`. */
  lemma MaskMatchesKeep(t: Table, spec: FilterSpec, e: Event)
    ensures (BaseCondition(spec, e) && OptionalPrefixHolds(t, spec, e, |OptionalColumns|)) == Keep(t, spec, e)
  {
    if BaseCondition(spec, e) && OptionalPrefixHolds(t, spec, e, |OptionalColumns|) {
      forall c | Applied(t, spec, c) ensures IsIn(e, c, Selection(spec, c)) {
        if !IsRequired(c) {
          var j := OptionalIndex(c);
          assert 0 <= j < |OptionalColumns| && Applied(t, spec, OptionalColumns[j]);
        }
      }
    }
    if Keep(t, spec, e) {
      assert Applied(t, spec, Season) && Applied(t, spec, SetPieceType) && Applied(t, spec, Executor);
      assert Applied(t, spec, Shot) && Applied(t, spec, Goal);
      assert Applied(t, spec, AttackingTeam) && Applied(t, spec, DefendingTeam);
    }
  }

  // ---------------------------------------------------------------------
  // Properties of the filter
  // ---------------------------------------------------------------------

  /**
   * The result is an order-preserving subsequence of the rows; it holds
   * every passing row as often as the input does and no failing row.
   */
  lemma SelectedExact(t: Table, spec: FilterSpec, es: seq<Event>)
    ensures IsSubsequence(Selected(t, spec, es), es)
    ensures forall e :: multiset(Selected(t, spec, es))[e] ==
                          if Keep(t, spec, e) then multiset(es)[e] else 0
    ensures forall e :: e in Selected(t, spec, es) <==> e in es && Keep(t, spec, e)
  {
    FilterByExact(es, KeepFn(t, spec));
  }

  /**
   * A row whose `jornada` cell `pd.to_numeric(errors='coerce')` turns into
   * NaN (a blank, or text that is not a number) fails `between` and is
   * never kept.
   */
  lemma UnparsableMatchdayNeverKept(t: Table, spec: FilterSpec, e: Event, raw: RawCell)
    requires e.matchday == ToNumeric(raw)
    requires raw.Blank? || (raw.Text? && !IsIntegerText(raw.s))
    ensures !Keep(t, spec, e)
    ensures Filtered(t, spec).Success? ==> e !in Filtered(t, spec).value
  {
    if Filtered(t, spec).Success? {
      SelectedExact(t, spec, t.events);
    }
  }

  /** Every kept row lies in the inclusive matchday range and meets every applied selection. */
  lemma FilteredRowsSatisfy(t: Table, spec: FilterSpec, e: Event, c: Column)
    requires Filtered(t, spec).Success? && e in Filtered(t, spec).value
    ensures e.matchday.Some? && spec.matchdays.0 <= e.matchday.value <= spec.matchdays.1
    ensures Applied(t, spec, c) ==> Cell(e, c).Some? && Cell(e, c).value in Selection(spec, c)
  {
    SelectedExact(t, spec, t.events);
  }

  /** An empty selection in a required column removes every row. */
  lemma EmptyRequiredSelectsNothing(t: Table, spec: FilterSpec, c: Column)
    requires IsRequired(c) && Selection(spec, c) == []
    ensures Filtered(t, spec).Success? ==> Filtered(t, spec).value == []
  {
    SelectedExact(t, spec, t.events);
  }

  /** An optional selection whose column the table lacks is ignored, whatever it holds. */
  lemma MissingOptionalIgnored(t: Table, spec: FilterSpec, c: Column, sel: seq<Label>)
    requires !IsRequired(c) && c !in t.columns
    ensures Filtered(t, WithSelection(spec, c, sel)) == Filtered(t, spec)
  {
    var spec' := WithSelection(spec, c, sel);
    forall e ensures KeepFn(t, spec')(e) == KeepFn(t, spec)(e) {
      assert forall d :: Applied(t, spec', d) <==> Applied(t, spec, d);
      assert forall d :: Applied(t, spec, d) ==> Selection(spec', d) == Selection(spec, d);
    }
    FilterByCongruent(t.events, KeepFn(t, spec'), KeepFn(t, spec));
  }

  /**
   * An empty optional selection filters exactly as if the table did not
   * have the column at all.
   */
  lemma EmptyOptionalAsIfAbsent(t: Table, spec: FilterSpec, c: Column)
    requires !IsRequired(c) && Selection(spec, c) == []
    ensures Filtered(t, spec) == Filtered(t.(columns := t.columns - {c}), spec)
  {
    var t' := t.(columns := t.columns - {c});
    forall d ensures Applied(t, spec, d) == Applied(t', spec, d) {
      if d != c {
        assert d in t.columns <==> d in t'.columns;
      }
    }
    forall e ensures KeepFn(t, spec)(e) == KeepFn(t', spec)(e) {
    }
    FilterByCongruent(t.events, KeepFn(t, spec), KeepFn(t', spec));
    ColumnsPartitioned(c);
    FirstMissingAgrees(RequiredColumns, t.columns, t'.columns);
  }

  /**
   * Clearing an optional selection can only bring rows back: the old
   * result is a subsequence of the new one.
   */
  lemma ClearingOptionalWidens(t: Table, spec: FilterSpec, c: Column)
    requires !IsRequired(c)
    ensures IsSubsequence(Selected(t, spec, t.events), Selected(t, WithSelection(spec, c, []), t.events))
  {
    var spec' := WithSelection(spec, c, []);
    forall e | KeepFn(t, spec)(e) ensures KeepFn(t, spec')(e) {
      forall d | Applied(t, spec', d) ensures IsIn(e, d, Selection(spec', d)) {
        assert d != c;
        assert Applied(t, spec, d);
      }
    }
    FilterByMonotone(t.events, KeepFn(t, spec), KeepFn(t, spec'));
  }

  /**
   * Filtering the rows of one attacking team, as the comparison page does,
   * gives that team's rows of the filtered table.
   */
  lemma FilterCommutesWithTeam(t: Table, spec: FilterSpec, es: seq<Event>, team: Label)
    ensures Selected(t, spec, RowsWith(es, AttackingTeam, team)) ==
            RowsWith(Selected(t, spec, es), AttackingTeam, team)
  {
    FilterByCommutes(es, KeepFn(t, spec), HasValueFn(AttackingTeam, team));
  }
}
