/**
 * The connection network: a directed graph from each set-piece executor to
 * its target player, built by adding one edge per filtered row that has
 * both players.  The graph is a networkx `DiGraph`: nodes in insertion
 * order and, per node, its successors in insertion order; adding an edge
 * that is already there changes nothing.
 */
module Network {
  import opened Seqs
  import opened Events
  import opened Filters

  type Pair = (Label, Label)

  /** Whether a row survives `dropna(subset=['jugador_ejecutor', 'jugador_objetivo'])`. */
  predicate HasBothPlayers(e: Event) {
    Cell(e, Executor).Some? && Cell(e, Target).Some?
  }

  function HasBothPlayersFn(): Event -> bool {
    e => HasBothPlayers(e)
  }

  /**
   * `dropna(subset=['jugador_ejecutor', 'jugador_objetivo'])` followed by
   * reading both cells: the (executor, target) pairs in row order, one for
   * each row that has both players.
   */
  function Pairs(es: seq<Event>): (r: seq<Pair>)
    ensures |r| <= |es|
    ensures |r| == |FilterBy(es, HasBothPlayersFn())|
    ensures forall i :: 0 <= i < |r| ==>
              Cell(FilterBy(es, HasBothPlayersFn())[i], Executor) == Some(r[i].0) &&
              Cell(FilterBy(es, HasBothPlayersFn())[i], Target) == Some(r[i].1)
    ensures forall p :: p in r <==> exists e :: e in es && Cell(e, Executor) == Some(p.0) && Cell(e, Target) == Some(p.1)
  {
    if es == [] then []
    else
      var init, last := es[..|es| - 1], es[|es| - 1];
      var rest := Pairs(init);
      assert forall e :: e in es <==> e in init || e == last by {
        assert es == init + [last];
      }
      if Cell(last, Executor).Some? && Cell(last, Target).Some? then
        rest + [(Cell(last, Executor).value, Cell(last, Target).value)]
      else
        rest
  }

  /** `s` with `x` appended unless it is already there. */
  function AddNew(s: seq<Label>, x: Label): (r: seq<Label>)
    ensures Distinct(s) ==> Distinct(r)
    ensures forall y :: y in r <==> y in s || y == x
  {
    if x in s then s else s + [x]
  }

  /** The distinct elements of `s` in order of first appearance. */
  function FirstOccurrences(s: seq<Label>): (r: seq<Label>)
    ensures Distinct(r)
    ensures forall x :: x in r <==> x in s
  {
    if s == [] then []
    else
      var init := s[..|s| - 1];
      assert forall x :: x in s <==> x in init || x == s[|s| - 1] by {
        assert s == init + [s[|s| - 1]];
      }
      AddNew(FirstOccurrences(init), s[|s| - 1])
  }

  /** Both endpoints of every pair, in order. */
  function Endpoints(ps: seq<Pair>): (r: seq<Label>)
    ensures forall x :: x in r <==> exists p :: p in ps && (p.0 == x || p.1 == x)
  {
    if ps == [] then []
    else
      var init, last := ps[..|ps| - 1], ps[|ps| - 1];
      assert forall p :: p in ps <==> p in init || p == last by {
        assert ps == init + [last];
      }
      Endpoints(init) + [last.0, last.1]
  }

  /** The distinct pairs of a list. */
  function PairSet(ps: seq<Pair>): set<Pair> {
    set p | p in ps
  }

  /** The edge set of an adjacency map. */
  ghost function EdgesOf(succ: map<Label, seq<Label>>): set<Pair> {
    set u, v | u in succ && v in succ[u] :: (u, v)
  }

  /** The adjacency map after `add_edge(u, v)`. */
  function Linked(succ: map<Label, seq<Label>>, u: Label, v: Label): map<Label, seq<Label>> {
    var s1 := if u in succ then succ else succ[u := []];
    var s2 := if v in s1 then s1 else s1[v := []];
    s2[u := AddNew(s2[u], v)]
  }

  /** Adding an edge adds exactly that pair to the edge set, whether or not it was there. */
  lemma LinkedEdges(succ: map<Label, seq<Label>>, u: Label, v: Label)
    ensures EdgesOf(Linked(succ, u, v)) == EdgesOf(succ) + {(u, v)}
  {
    var s := Linked(succ, u, v);
    forall p | p in EdgesOf(s) ensures p in EdgesOf(succ) + {(u, v)} {
      var a, b :| a in s && b in s[a] && p == (a, b);
      if a != u && a in succ {
        assert s[a] == succ[a];
      }
    }
    forall p | p in EdgesOf(succ) + {(u, v)} ensures p in EdgesOf(s) {
      if p != (u, v) {
        var a, b :| a in succ && b in succ[a] && p == (a, b);
        assert a in s && b in s[a];
      } else {
        assert u in s && v in s[u];
      }
    }
  }

  /** Nodes are listed once each, every node has a successor list, and every successor is a node. */
  ghost predicate GraphShape(nodes: seq<Label>, succ: map<Label, seq<Label>>) {
    && Distinct(nodes)
    && (forall u :: u in succ <==> u in nodes)
    && (forall u :: u in succ ==> Distinct(succ[u]) && forall v :: v in succ[u] ==> v in succ)
  }

  /** `add_edge` keeps the graph well formed. */
  lemma LinkedShape(nodes: seq<Label>, succ: map<Label, seq<Label>>, u: Label, v: Label)
    requires GraphShape(nodes, succ)
    ensures GraphShape(AddNew(AddNew(nodes, u), v), Linked(succ, u, v))
  {
  }

  class DiGraph {
    var nodes: seq<Label>
    var succ: map<Label, seq<Label>>

    ghost predicate Valid()
      reads this
    {
      GraphShape(nodes, succ)
    }

    ghost function Edges(): set<Pair>
      reads this
    {
      EdgesOf(succ)
    }

    constructor ()
      ensures Valid() && nodes == [] && succ == map[] && Edges() == {}
    {
      nodes := [];
      succ := map[];
    }

    /** `G.add_edge(u, v)`: adds the missing endpoints (first `u`, then `v`) and the edge. */
    method AddEdge(u: Label, v: Label)
      requires Valid()
      modifies this
      ensures Valid()
      ensures nodes == AddNew(AddNew(old(nodes), u), v)
      ensures succ == Linked(old(succ), u, v)
      ensures Edges() == old(Edges()) + {(u, v)}
    {
      LinkedShape(nodes, succ, u, v);
      LinkedEdges(succ, u, v);
      if u !in succ {
        nodes := nodes + [u];
        succ := succ[u := []];
      }
      if v !in succ {
        nodes := nodes + [v];
        succ := succ[v := []];
      }
      succ := succ[u := AddNew(succ[u], v)];
    }
  }

  datatype NetworkOutcome = NoTargetColumn | FilterFailed(error: FilterError) | Built

  /**
   * The network page: nothing without a target column; otherwise the
   * filter (which may fail), then one `add_edge` per row with both players.
   */
  method BuildNetwork(t: Table, spec: FilterSpec) returns (outcome: NetworkOutcome, g: DiGraph)
    ensures fresh(g) && g.Valid()
    ensures outcome == NoTargetColumn <==> Target !in t.columns
    ensures Target in t.columns && Filtered(t, spec).Failure? ==> outcome == FilterFailed(Filtered(t, spec).error)
    ensures outcome == Built <==> Target in t.columns && Filtered(t, spec).Success?
    ensures outcome == Built ==> g.nodes == FirstOccurrences(Endpoints(Pairs(Filtered(t, spec).value)))
    ensures outcome == Built ==> g.Edges() == PairSet(Pairs(Filtered(t, spec).value))
    ensures outcome != Built ==> g.nodes == [] && g.Edges() == {}
  {
    g := new DiGraph();
    if Target !in t.columns {
      return NoTargetColumn, g;
    }
    var filtered := ApplyFilters(t, spec);
    if filtered.Failure? {
      return FilterFailed(filtered.error), g;
    }
    AddAll(g, Pairs(filtered.value));
    return Built, g;
  }

  /** The iteration over the rows: one `add_edge` per pair, in order. */
  method AddAll(g: DiGraph, ps: seq<Pair>)
    requires g.Valid() && g.nodes == [] && g.Edges() == {}
    modifies g
    ensures g.Valid()
    ensures g.nodes == FirstOccurrences(Endpoints(ps))
    ensures g.Edges() == PairSet(ps)
  {
    var i := 0;
    while i < |ps|
      invariant 0 <= i <= |ps|
      invariant g.Valid()
      invariant g.nodes == FirstOccurrences(Endpoints(ps[..i]))
      invariant g.Edges() == PairSet(ps[..i])
    {
      NetworkStep(ps, i);
      g.AddEdge(ps[i].0, ps[i].1);
      i := i + 1;
    }
    assert ps[..i] == ps;
  }

  /** One more pair adds its endpoints in order (if new) and its edge. */
  lemma NetworkStep(ps: seq<Pair>, i: nat)
    requires i < |ps|
    ensures FirstOccurrences(Endpoints(ps[..i + 1])) ==
            AddNew(AddNew(FirstOccurrences(Endpoints(ps[..i])), ps[i].0), ps[i].1)
    ensures PairSet(ps[..i + 1]) == PairSet(ps[..i]) + {ps[i]}
  {
    assert ps[..i + 1] == ps[..i] + [ps[i]];
    EndpointsSnoc(ps[..i], ps[i]);
    PairSetSnoc(ps[..i], ps[i]);
  }

  lemma EndpointsSnoc(init: seq<Pair>, p: Pair)
    ensures FirstOccurrences(Endpoints(init + [p])) == AddNew(AddNew(FirstOccurrences(Endpoints(init)), p.0), p.1)
  {
    var ends := Endpoints(init);
    assert (init + [p])[..|init|] == init;
    assert Endpoints(init + [p]) == (ends + [p.0]) + [p.1];
    FirstOccurrencesSnoc(ends, p.0);
    FirstOccurrencesSnoc(ends + [p.0], p.1);
  }

  lemma PairSetSnoc(init: seq<Pair>, p: Pair)
    ensures PairSet(init + [p]) == PairSet(init) + {p}
  {
  }

  lemma FirstOccurrencesSnoc(s: seq<Label>, x: Label)
    ensures FirstOccurrences(s + [x]) == AddNew(FirstOccurrences(s), x)
  {
    assert (s + [x])[..|s|] == s;
  }

  /** Whether row `e` has both players and `x` is one of them. */
  predicate Involves(e: Event, x: Label) {
    Cell(e, Executor).Some? && Cell(e, Target).Some? &&
    (Cell(e, Executor) == Some(x) || Cell(e, Target) == Some(x))
  }

  /** The nodes are exactly the executors and targets of the rows that have both. */
  lemma NetworkNodes(es: seq<Event>)
    ensures forall x :: x in FirstOccurrences(Endpoints(Pairs(es))) <==> exists e :: e in es && Involves(e, x)
  {
    forall x | x in Endpoints(Pairs(es)) ensures exists e :: e in es && Involves(e, x) {
      NodeHasRow(es, x);
    }
    forall x | exists e :: e in es && Involves(e, x) ensures x in Endpoints(Pairs(es)) {
      RowHasNode(es, x);
    }
  }

  lemma NodeHasRow(es: seq<Event>, x: Label)
    requires x in Endpoints(Pairs(es))
    ensures exists e :: e in es && Involves(e, x)
  {
    var p :| p in Pairs(es) && (p.0 == x || p.1 == x);
    var e :| e in es && Cell(e, Executor) == Some(p.0) && Cell(e, Target) == Some(p.1);
    assert Involves(e, x);
  }

  lemma RowHasNode(es: seq<Event>, x: Label)
    requires exists e :: e in es && Involves(e, x)
    ensures x in Endpoints(Pairs(es))
  {
    var e :| e in es && Involves(e, x);
    var p := (Cell(e, Executor).value, Cell(e, Target).value);
    assert p in Pairs(es);
  }

  /**
   * The edges are exactly the (executor, target) pairs of the rows, each
   * once however often it repeats, so there are no more edges than rows.
   */
  lemma NetworkEdges(es: seq<Event>)
    ensures forall u, v :: (u, v) in PairSet(Pairs(es)) <==>
              exists e :: e in es && Cell(e, Executor) == Some(u) && Cell(e, Target) == Some(v)
    ensures |PairSet(Pairs(es))| <= |es|
  {
    var ps := Pairs(es);
    assert forall p :: p in PairSet(ps) <==> p in ps;
    SetOfSeqSize(ps);
  }

  lemma {:induction false} SetOfSeqSize(ps: seq<Pair>)
    ensures |PairSet(ps)| <= |ps|
  {
    if ps != [] {
      var init := ps[..|ps| - 1];
      SetOfSeqSize(init);
      assert ps == init + [ps[|ps| - 1]];
      assert PairSet(ps) == PairSet(init) + {ps[|ps| - 1]};
    }
  }
}
