/**
 * The event table of the set-piece dashboard: one record per dead-ball
 * action, categorical cells keyed by column, the coerced matchday and
 * the expected-goals value.  Also the two table-level helpers the page
 * runs before filtering: the sorted option list of a column and the
 * numeric coercion of the matchday column.
 */
module Events {
  import opened Seqs

  datatype Option<T> = None | Some(value: T)

  /** A categorical cell value (a spreadsheet string). */
  type Label = string

  /** The categorical columns, with their lower-cased spreadsheet headers. */
  datatype Column =
    | Season             // temporada
    | SetPieceType       // abp_tipo
    | ExecutionType      // ejecucion_tipo
    | Executor           // jugador_ejecutor
    | Target             // jugador_objetivo
    | DefendingKeeper    // portero_defensor
    | AttackingKeeper    // portero_ataca
    | AttackingTeam      // equipo_atacante
    | DefendingTeam      // equipo_defensor
    | Shot               // tiro
    | Goal               // gol
    | AttackerPhase      // momento_resultado_atacante
    | DefenderPhase      // momento_resultado_defensor
    | Half               // momento_mitad
    | TimeBucket         // momento_rango
    | AttackerSituation  // situacion_numerica_atacante
    | DefenderSituation  // situacion_numerica_defensor

  /**
   * One dead-ball action.  A categorical column missing from `cells` is a
   * null cell.  `matchday` is the `jornada` cell after numeric coercion and
   * `xg` the `xg_tiro` cell; `None` stands for NaN in both.
   */
  datatype Event = Event(cells: map<Column, Label>, matchday: Option<int>, xg: Option<real>)

  /**
   * The loaded table: which categorical columns it has, whether it has an
   * `xg_tiro` column, and its rows in order.  The `jornada` column is
   * always present: the page reads it unconditionally when it loads.
   */
  datatype Table = Table(columns: set<Column>, hasXg: bool, events: seq<Event>)

  function Cell(e: Event, c: Column): Option<Label> {
    if c in e.cells then Some(e.cells[c]) else None
  }

  function HasValueFn(c: Column, v: Label): Event -> bool {
    e => Cell(e, c) == Some(v)
  }

  /** The rows whose cell in column `c` is `v` (`df[df[c] == v]`, one `groupby` group). */
  function RowsWith(es: seq<Event>, c: Column, v: Label): seq<Event> {
    FilterBy(es, HasValueFn(c, v))
  }

  /** The rows of one group are exactly the rows of `es` with that value, in order. */
  lemma RowsWithExact(es: seq<Event>, c: Column, v: Label)
    ensures IsSubsequence(RowsWith(es, c, v), es)
    ensures forall e :: e in RowsWith(es, c, v) <==> e in es && Cell(e, c) == Some(v)
    ensures |RowsWith(es, c, v)| <= |es|
  {
    FilterByExact(es, HasValueFn(c, v));
    SubsequenceElements(RowsWith(es, c, v), es);
  }

  // ---------------------------------------------------------------------
  // Ordering of labels
  // ---------------------------------------------------------------------

  /** Python's string order: lexicographic by code point, a proper prefix first. */
  predicate LabelLess(a: Label, b: Label) {
    if a == [] then b != []
    else if b == [] then false
    else if a[0] != b[0] then a[0] < b[0]
    else LabelLess(a[1..], b[1..])
  }

  lemma {:induction false} LabelLessIrreflexive(a: Label)
    ensures !LabelLess(a, a)
  {
    if a != [] {
      LabelLessIrreflexive(a[1..]);
    }
  }

  lemma {:induction false} LabelLessTransitive(a: Label, b: Label, c: Label)
    requires LabelLess(a, b) && LabelLess(b, c)
    ensures LabelLess(a, c)
  {
    if a != [] && b != [] && c != [] && a[0] == b[0] && b[0] == c[0] {
      LabelLessTransitive(a[1..], b[1..], c[1..]);
    }
  }

  lemma {:induction false} LabelLessConnected(a: Label, b: Label)
    requires a != b
    ensures LabelLess(a, b) || LabelLess(b, a)
  {
    if a != [] && b != [] && a[0] == b[0] {
      assert a == [a[0]] + a[1..] && b == [b[0]] + b[1..];
      LabelLessConnected(a[1..], b[1..]);
    }
  }

  lemma LabelOrder()
    ensures StrictTotalOrder(LabelLess)
  {
    forall a ensures !LabelLess(a, a) {
      LabelLessIrreflexive(a);
    }
    forall a, b, c | LabelLess(a, b) && LabelLess(b, c) ensures LabelLess(a, c) {
      LabelLessTransitive(a, b, c);
    }
    forall a, b | a != b ensures LabelLess(a, b) || LabelLess(b, a) {
      LabelLessConnected(a, b);
    }
  }

  predicate IntLess(a: int, b: int) {
    a < b
  }

  lemma IntOrder()
    ensures StrictTotalOrder(IntLess)
  {
  }

  // ---------------------------------------------------------------------
  // Column options (col_ok)
  // ---------------------------------------------------------------------

  /** The non-null values of column `c`, in row order (`dropna`). */
  function NonNullValues(es: seq<Event>, c: Column): (r: seq<Label>)
    ensures |r| <= |es|
    ensures forall v :: v in r <==> exists i :: 0 <= i < |es| && Cell(es[i], c) == Some(v)
  {
    if es == [] then []
    else
      var rest := NonNullValues(es[..|es| - 1], c);
      assert forall i :: 0 <= i < |es| - 1 ==> es[..|es| - 1][i] == es[i];
      match Cell(es[|es| - 1], c)
      case None => rest
      case Some(v) => rest + [v]
  }

  /** The distinct non-null values of column `c` in ascending order (`sorted(dropna().unique())`). */
  function DistinctValues(es: seq<Event>, c: Column): (r: seq<Label>)
    ensures StrictlyAscending(r, LabelLess) && Distinct(r)
    ensures forall v :: v in r <==> exists e :: e in es && Cell(e, c) == Some(v)
  {
    var vs := NonNullValues(es, c);
    LabelOrder();
    SortedDistinctCorrect(vs, LabelLess);
    AscendingIsDistinct(SortedDistinct(vs, LabelLess), LabelLess);
    SortedDistinct(vs, LabelLess)
  }

  /**
   * `col_ok`: the distinct non-null values of a column in ascending order,
   * or the empty list when the table has no such column.
   */
  function ColumnOptions(t: Table, c: Column): (r: seq<Label>)
    ensures StrictlyAscending(r, LabelLess) && Distinct(r)
    ensures c !in t.columns ==> r == []
    ensures forall v :: v in r <==> c in t.columns && exists e :: e in t.events && Cell(e, c) == Some(v)
  {
    if c in t.columns then DistinctValues(t.events, c) else []
  }

  /** Any ascending list holding exactly a column's non-null values is `col_ok`'s answer. */
  lemma ColumnOptionsUnique(t: Table, c: Column, s: seq<Label>)
    requires c in t.columns && StrictlyAscending(s, LabelLess)
    requires forall v :: v in s <==> exists e :: e in t.events && Cell(e, c) == Some(v)
    ensures s == ColumnOptions(t, c)
  {
    LabelOrder();
    AscendingUnique(s, ColumnOptions(t, c), LabelLess);
  }

  // ---------------------------------------------------------------------
  // Matchdays
  // ---------------------------------------------------------------------

  /** A raw `jornada` cell as read from the spreadsheet. */
  datatype RawCell = Number(n: int) | Text(s: string) | Blank

  predicate IsDigit(ch: char) {
    '0' <= ch <= '9'
  }

  predicate AllDigits(s: string) {
    forall i :: 0 <= i < |s| ==> IsDigit(s[i])
  }

  /** An optionally signed, non-empty run of decimal digits. */
  predicate IsIntegerText(s: string) {
    if |s| > 0 && (s[0] == '-' || s[0] == '+') then |s| > 1 && AllDigits(s[1..])
    else |s| > 0 && AllDigits(s)
  }

  function DigitsValue(s: string): (r: nat)
    requires AllDigits(s)
    decreases |s|
  {
    if s == [] then 0
    else DigitsValue(s[..|s| - 1]) * 10 + (s[|s| - 1] as int - '0' as int)
  }

  /** Decimal rendering of a natural number, used to state the parse round trip. */
  function DigitsOf(n: nat): (r: string)
    ensures |r| > 0 && AllDigits(r)
  {
    if n < 10 then [('0' as int + n) as char]
    else DigitsOf(n / 10) + [('0' as int + n % 10) as char]
  }

  lemma {:induction false} DigitsRoundTrip(n: nat)
    ensures DigitsValue(DigitsOf(n)) == n
  {
    if n >= 10 {
      DigitsRoundTrip(n / 10);
      var s := DigitsOf(n);
      assert s[..|s| - 1] == DigitsOf(n / 10);
    }
  }

  /**
   * `pd.to_numeric(..., errors='coerce')` on one cell: numbers pass,
   * integer text is parsed, everything else becomes NaN (`None`).
   */
  function ToNumeric(c: RawCell): (r: Option<int>)
    ensures c.Number? ==> r == Some(c.n)
    ensures c.Blank? ==> r == None
    ensures c.Text? ==> (r.Some? <==> IsIntegerText(c.s))
  {
    match c
    case Number(n) => Some(n)
    case Blank => None
    case Text(s) =>
      if !IsIntegerText(s) then None
      else if s[0] == '-' then Some(-(DigitsValue(s[1..]) as int))
      else if s[0] == '+' then Some(DigitsValue(s[1..]))
      else Some(DigitsValue(s))
  }

  /** Digits with a leading sign are read as the signed value of the digits. */
  lemma SignedDigits(sign: char, d: string)
    requires sign == '-' || sign == '+'
    requires |d| > 0 && AllDigits(d)
    ensures ToNumeric(Text([sign] + d)) == Some(if sign == '-' then -(DigitsValue(d) as int) else DigitsValue(d))
  {
    assert ([sign] + d)[1..] == d;
  }

  /** Unsigned digits are read as their value. */
  lemma UnsignedDigits(d: string)
    requires |d| > 0 && AllDigits(d)
    ensures ToNumeric(Text(d)) == Some(DigitsValue(d))
  {
    assert IsDigit(d[0]);
  }

  /** A matchday written out in decimal, with or without a sign, is read back as itself. */
  lemma ToNumericReadsDecimal(n: int)
    ensures ToNumeric(Text(if n < 0 then "-" + DigitsOf(-n) else DigitsOf(n))) == Some(n)
    ensures n >= 0 ==> ToNumeric(Text("+" + DigitsOf(n))) == Some(n)
  {
    if n < 0 {
      DigitsRoundTrip(-n);
      SignedDigits('-', DigitsOf(-n));
    } else {
      DigitsRoundTrip(n);
      SignedDigits('+', DigitsOf(n));
      UnsignedDigits(DigitsOf(n));
    }
  }


  /** The numeric matchdays of the rows, in row order (`dropna`). */
  function Matchdays(es: seq<Event>): (r: seq<int>)
    ensures forall m :: m in r <==> exists i :: 0 <= i < |es| && es[i].matchday == Some(m)
  {
    if es == [] then []
    else
      var rest := Matchdays(es[..|es| - 1]);
      assert forall i :: 0 <= i < |es| - 1 ==> es[..|es| - 1][i] == es[i];
      match es[|es| - 1].matchday
      case None => rest
      case Some(m) => rest + [m]
  }

  /** `sorted(df['jornada'].dropna().unique())`: the matchday domain of the table. */
  function MatchdayDomain(es: seq<Event>): (r: seq<int>)
    ensures StrictlyAscending(r, IntLess) && Distinct(r)
    ensures forall m :: m in r <==> exists e :: e in es && e.matchday == Some(m)
  {
    IntOrder();
    SortedDistinctCorrect(Matchdays(es), IntLess);
    AscendingIsDistinct(SortedDistinct(Matchdays(es), IntLess), IntLess);
    SortedDistinct(Matchdays(es), IntLess)
  }

  /**
   * The slider bounds `(int(min), int(max))` of the matchday column;
   * `None` where the page would fail because every matchday is NaN.
   */
  function MatchdayBounds(es: seq<Event>): (r: Option<(int, int)>)
    ensures r.None? <==> forall e :: e in es ==> e.matchday.None?
    ensures r.Some? ==> forall e :: e in es && e.matchday.Some? ==>
              r.value.0 <= e.matchday.value <= r.value.1
    ensures r.Some? ==> exists e :: e in es && e.matchday == Some(r.value.0)
    ensures r.Some? ==> exists e :: e in es && e.matchday == Some(r.value.1)
  {
    var d := MatchdayDomain(es);
    if d == [] then
      None
    else
      assert d[0] in d && d[|d| - 1] in d;
      assert forall e :: e in es && e.matchday.Some? ==> d[0] <= e.matchday.value <= d[|d| - 1] by {
        forall e | e in es && e.matchday.Some? ensures d[0] <= e.matchday.value <= d[|d| - 1] {
          assert e.matchday.value in d;
          var k :| 0 <= k < |d| && d[k] == e.matchday.value;
          assert k == 0 || IntLess(d[0], d[k]);
          assert k == |d| - 1 || IntLess(d[k], d[|d| - 1]);
        }
      }
      Some((d[0], d[|d| - 1]))
  }
}
