/**
 The provenance graph: who derives from whom, recall routing and downstream taint
 (crates/transform/src/provenance.rs; `inherit_taints` of crates/transform/src/combine.rs).
 */
module Provenance {
  import opened Identifiers
  import opened Taints

  type Adjacency = map<PassportId, set<PassportId>>

  type TaintIndex = map<PassportId, set<Taint>>

  /** `entry(from).or_default().insert(to)`. */
  function Insert(adj: Adjacency, from: PassportId, to: PassportId): Adjacency {
    adj[from := (if from in adj then adj[from] else {}) + {to}]
  }

  predicate Edge(adj: Adjacency, from: PassportId, to: PassportId) {
    from in adj && to in adj[from]
  }

  /** The two maps of a graph. */
  datatype Graph = Graph(inputsOf: Adjacency, outputsOf: Adjacency)

  function Link(g: Graph, input: PassportId, output: PassportId): Graph {
    Graph(Insert(g.inputsOf, output, input), Insert(g.outputsOf, input, output))
  }

  function LinkSplit(g: Graph, parent: PassportId, children: seq<PassportId>): Graph
    decreases |children|
  {
    if children == [] then g else LinkSplit(Link(g, parent, children[0]), parent, children[1..])
  }

  function LinkCombine(g: Graph, output: PassportId, inputs: seq<PassportId>): Graph
    decreases |inputs|
  {
    if inputs == [] then g else LinkCombine(Link(g, inputs[0], output), output, inputs[1..])
  }

  // ----- reachability

  ghost predicate IsPath(adj: Adjacency, path: seq<PassportId>) {
    forall i :: 0 <= i < |path| - 1 ==> Edge(adj, path[i], path[i + 1])
  }

  /** By one edge or more. */
  ghost predicate Reaches(adj: Adjacency, from: PassportId, to: PassportId) {
    exists path :: PathBetween(adj, path, from, to)
  }

  ghost predicate PathBetween(adj: Adjacency, path: seq<PassportId>, from: PassportId, to: PassportId) {
    |path| >= 2 && path[0] == from && path[|path| - 1] == to && IsPath(adj, path)
  }

  function Targets(adj: Adjacency): set<PassportId> {
    set a, b | a in adj && b in adj[a] :: b
  }

  ghost function ReachedFrom(adj: Adjacency, from: PassportId): (s: set<PassportId>)
    ensures forall x :: x in s <==> Reaches(adj, from, x)
  {
    forall x | Reaches(adj, from, x) ensures x in Targets(adj) {
      ReachedIsTarget(adj, from, x);
    }
    set x | x in Targets(adj) && Reaches(adj, from, x)
  }

  lemma {:induction false} ReachedIsTarget(adj: Adjacency, from: PassportId, to: PassportId)
    requires Reaches(adj, from, to)
    ensures to in Targets(adj)
  {
    var path :| PathBetween(adj, path, from, to);
    assert Edge(adj, path[|path| - 2], path[|path| - 2 + 1]);
  }

  lemma {:induction false} EdgeReaches(adj: Adjacency, a: PassportId, b: PassportId)
    requires Edge(adj, a, b)
    ensures Reaches(adj, a, b)
  {
    assert PathBetween(adj, [a, b], a, b);
  }

  lemma {:induction false} ReachesThrough(adj: Adjacency, a: PassportId, b: PassportId, c: PassportId)
    requires Reaches(adj, a, b) && Reaches(adj, b, c)
    ensures Reaches(adj, a, c)
  {
    var p :| PathBetween(adj, p, a, b);
    var q :| PathBetween(adj, q, b, c);
    hide Edge;
    var r := p + q[1..];
    forall i | 0 <= i < |r| - 1 ensures Edge(adj, r[i], r[i + 1]) {
      if i < |p| - 1 {
        assert Edge(adj, p[i], p[i + 1]);
      } else {
        assert r[i] == q[i - |p| + 1] && r[i + 1] == q[i - |p| + 2];
        assert Edge(adj, q[i - |p| + 1], q[i - |p| + 1 + 1]);
      }
    }
    assert PathBetween(adj, r, a, c);
  }

  /** A set that holds the successors of `from` and of its own members holds all that `from` reaches. */
  lemma {:induction false} ClosedHoldsPath(adj: Adjacency, seen: set<PassportId>, path: seq<PassportId>)
    requires |path| >= 2 && IsPath(adj, path)
    requires forall x, y :: (x == path[0] || x in seen) && Edge(adj, x, y) ==> y in seen
    ensures path[|path| - 1] in seen
    decreases |path|
  {
    hide Edge;
    assert Edge(adj, path[0], path[0 + 1]);
    if |path| > 2 {
      forall i | 0 <= i < |path[1..]| - 1 ensures Edge(adj, path[1..][i], path[1..][i + 1]) {
        assert Edge(adj, path[i + 1], path[i + 1 + 1]);
      }
      ClosedHoldsPath(adj, seen, path[1..]);
    }
  }

  lemma {:induction false} ClosedHoldsReached(adj: Adjacency, seen: set<PassportId>, from: PassportId, x: PassportId)
    requires forall a, b :: (a == from || a in seen) && Edge(adj, a, b) ==> b in seen
    requires Reaches(adj, from, x)
    ensures x in seen
  {
    var path :| PathBetween(adj, path, from, x);
    ClosedHoldsPath(adj, seen, path);
  }

  /** The worklist loop: it ends on every graph, cycles included, with exactly the nodes reached by one edge or more. */
  method Walk(adj: Adjacency, start: PassportId) returns (seen: set<PassportId>)
    ensures seen == ReachedFrom(adj, start)
  {
    hide Reaches, Targets, ReachedFrom;
    seen := {};
    var queue := [start];
    while queue != []
      invariant seen <= Targets(adj)
      invariant forall x :: x in seen ==> Reaches(adj, start, x)
      invariant forall i :: 0 <= i < |queue| ==> queue[i] == start || queue[i] in seen
      invariant forall x, y :: (x == start || x in seen) && x !in queue && Edge(adj, x, y) ==> y in seen
      decreases |Targets(adj) - seen|, |queue|
    {
      var node := queue[|queue| - 1];
      queue := queue[..|queue| - 1];
      if node in adj {
        seen, queue := Expand(adj, start, node, seen, queue);
      }
    }
    forall x | Reaches(adj, start, x) ensures x in seen {
      ClosedHoldsReached(adj, seen, start, x);
    }
  }

  /** The inner loop: the successors not yet seen are marked and queued. */
  method Expand(adj: Adjacency, start: PassportId, node: PassportId, before: set<PassportId>, queue: seq<PassportId>)
    returns (seen: set<PassportId>, pending: seq<PassportId>)
    requires node in adj && (node == start || node in before) && before <= Targets(adj)
    requires forall x :: x in before ==> Reaches(adj, start, x)
    requires forall i :: 0 <= i < |queue| ==> queue[i] == start || queue[i] in before
    ensures seen == before + adj[node] && seen <= Targets(adj)
    ensures forall x :: x in seen ==> Reaches(adj, start, x)
    ensures forall i :: 0 <= i < |pending| ==> pending[i] == start || pending[i] in seen
    ensures forall x :: x in queue || x in seen - before ==> x in pending
    ensures |Targets(adj) - seen| < |Targets(adj) - before| || (seen == before && pending == queue)
  {
    hide *;
    seen, pending := before, queue;
    var next := adj[node];
    while next != {}
      invariant next <= adj[node] && seen + next == before + adj[node] && before <= seen
      invariant forall i :: 0 <= i < |pending| ==> pending[i] == start || pending[i] in seen
      invariant forall x :: x in queue || x in seen - before ==> x in pending
      invariant seen == before ==> pending == queue
      decreases next
    {
      var n :| n in next;
      next := next - {n};
      if n !in seen {
        seen := seen + {n};
        pending := pending + [n];
        assert n !in before;
      }
    }
    forall n | n in adj[node] ensures Reaches(adj, start, n) && n in Targets(adj) {
      StepReaches(adj, start, node, n);
    }
    FewerLeft(Targets(adj), before, seen);
  }

  lemma {:induction false} StepReaches(adj: Adjacency, start: PassportId, node: PassportId, n: PassportId)
    requires (node == start || Reaches(adj, start, node)) && node in adj && n in adj[node]
    ensures Reaches(adj, start, n) && n in Targets(adj)
  {
    assert Edge(adj, node, n);
    EdgeReaches(adj, node, n);
    if node != start {
      ReachesThrough(adj, start, node, n);
    }
  }

  lemma {:induction false} FewerLeft(all: set<PassportId>, before: set<PassportId>, after: set<PassportId>)
    requires before <= after <= all
    ensures before == after || |all - after| < |all - before|
  {
    if before != after {
      assert all - after < all - before;
      SmallerSet(all - after, all - before);
    }
  }

  lemma {:induction false} SmallerSet(a: set<PassportId>, b: set<PassportId>)
    requires a < b
    ensures |a| < |b|
  {
    assert b == a + (b - a);
  }

  // ----- the graph

  /** The maps mirror each other. */
  ghost predicate Converse(g: Graph) {
    forall a, b :: Edge(g.outputsOf, a, b) <==> Edge(g.inputsOf, b, a)
  }

  class ProvenanceGraph {
    var inputsOf: Adjacency
    var outputsOf: Adjacency

    ghost function View(): Graph
      reads this
    {
      Graph(inputsOf, outputsOf)
    }

    constructor ()
      ensures View() == Graph(map[], map[])
    {
      inputsOf, outputsOf := map[], map[];
    }

    method RecordSplit(parent: PassportId, children: seq<PassportId>)
      modifies this
      ensures View() == LinkSplit(old(View()), parent, children)
    {
      for i := 0 to |children|
        invariant LinkSplit(View(), parent, children[i..]) == LinkSplit(old(View()), parent, children)
      {
        assert children[i..][1..] == children[i + 1..];
        inputsOf := Insert(inputsOf, children[i], parent);
        outputsOf := Insert(outputsOf, parent, children[i]);
      }
    }

    method RecordCombine(output: PassportId, inputs: seq<PassportId>)
      modifies this
      ensures View() == LinkCombine(old(View()), output, inputs)
    {
      for i := 0 to |inputs|
        invariant LinkCombine(View(), output, inputs[i..]) == LinkCombine(old(View()), output, inputs)
      {
        assert inputs[i..][1..] == inputs[i + 1..];
        inputsOf := Insert(inputsOf, output, inputs[i]);
        outputsOf := Insert(outputsOf, inputs[i], output);
      }
    }

    method Ancestors(id: PassportId) returns (r: set<PassportId>)
      ensures r == ReachedFrom(inputsOf, id)
    {
      r := Walk(inputsOf, id);
    }

    method Descendants(id: PassportId) returns (r: set<PassportId>)
      ensures r == ReachedFrom(outputsOf, id)
    {
      r := Walk(outputsOf, id);
    }

    method RecallSet(root: PassportId) returns (r: set<PassportId>)
      ensures r == RecallOf(View(), root)
    {
      r := Walk(outputsOf, root);
      r := r + {root};
    }

    method TaintsOf(id: PassportId, index: TaintIndex) returns (out: TaintSet)
      ensures fresh(out) && out.entries == EffectiveTaints(View(), id, index)
    {
      out := new TaintSet();
      var sources := Walk(inputsOf, id);
      sources := sources + {id};
      var rest := sources;
      while rest != {}
        invariant rest <= sources && fresh(out)
        invariant out.entries == TaintsIn(sources - rest, index)
        decreases rest
      {
        var s :| s in rest;
        ghost var done := sources - rest;
        rest := rest - {s};
        assert sources - rest == done + {s};
        if s in index {
          out.Merge(index[s]);
        }
      }
      assert sources - rest == sources;
    }
  }

  // ----- every recording keeps the maps mirrored, and only adds

  datatype Recording =
    | SplitRecord(parent: PassportId, children: seq<PassportId>)
    | CombineRecord(output: PassportId, inputs: seq<PassportId>)

  function Recorded(g: Graph, r: Recording): Graph {
    match r
    case SplitRecord(parent, children) => LinkSplit(g, parent, children)
    case CombineRecord(output, inputs) => LinkCombine(g, output, inputs)
  }

  function RecordAll(g: Graph, rs: seq<Recording>): Graph
    decreases |rs|
  {
    if rs == [] then g else RecordAll(Recorded(g, rs[0]), rs[1..])
  }

  lemma {:induction false} LinkedEdges(g: Graph, input: PassportId, output: PassportId)
    ensures forall a, b :: Edge(Link(g, input, output).outputsOf, a, b) <==>
                           Edge(g.outputsOf, a, b) || (a == input && b == output)
    ensures Converse(g) ==> Converse(Link(g, input, output))
  {}

  /** A split adds an edge from the parent to each child, and no other. */
  lemma {:induction false} SplitEdges(g: Graph, parent: PassportId, children: seq<PassportId>)
    ensures forall a, b :: Edge(LinkSplit(g, parent, children).outputsOf, a, b) <==>
                           Edge(g.outputsOf, a, b) || (a == parent && b in children)
    ensures Converse(g) ==> Converse(LinkSplit(g, parent, children))
    decreases |children|
  {
    hide Link, Edge, Converse;
    if children != [] {
      LinkedEdges(g, parent, children[0]);
      SplitEdges(Link(g, parent, children[0]), parent, children[1..]);
    }
  }

  /** A combine adds an edge from each input to the output, and no other. */
  lemma {:induction false} CombineEdges(g: Graph, output: PassportId, inputs: seq<PassportId>)
    ensures forall a, b :: Edge(LinkCombine(g, output, inputs).outputsOf, a, b) <==>
                           Edge(g.outputsOf, a, b) || (b == output && a in inputs)
    ensures Converse(g) ==> Converse(LinkCombine(g, output, inputs))
    decreases |inputs|
  {
    hide Link, Edge, Converse;
    if inputs != [] {
      LinkedEdges(g, inputs[0], output);
      CombineEdges(Link(g, inputs[0], output), output, inputs[1..]);
    }
  }

  ghost predicate Extends(g: Graph, h: Graph) {
    forall a, b :: Edge(g.outputsOf, a, b) ==> Edge(h.outputsOf, a, b)
  }

  lemma {:induction false} RecordingKeepsConverse(g: Graph, r: Recording)
    ensures Extends(g, Recorded(g, r)) && (Converse(g) ==> Converse(Recorded(g, r)))
  {
    hide Edge, LinkSplit, LinkCombine, Converse;
    match r
    case SplitRecord(parent, children) => SplitEdges(g, parent, children);
    case CombineRecord(output, inputs) => CombineEdges(g, output, inputs);
  }

  /** Whatever is recorded, the two maps stay converse and no edge is lost. */
  lemma {:induction false} RecordingsKeepConverse(g: Graph, rs: seq<Recording>)
    requires Converse(g)
    ensures Converse(RecordAll(g, rs)) && Extends(g, RecordAll(g, rs))
    decreases |rs|
  {
    hide Edge, Recorded, Converse;
    if rs != [] {
      RecordingKeepsConverse(g, rs[0]);
      RecordingsKeepConverse(Recorded(g, rs[0]), rs[1..]);
    }
  }

  // ----- duality

  function Backwards(p: seq<PassportId>): (r: seq<PassportId>)
    ensures |r| == |p| && forall i :: 0 <= i < |p| ==> r[i] == p[|p| - 1 - i]
  {
    if p == [] then [] else Backwards(p[1..]) + [p[0]]
  }

  lemma {:induction false} ReachesBack(fwd: Adjacency, back: Adjacency, a: PassportId, b: PassportId)
    requires forall x, y :: Edge(fwd, x, y) ==> Edge(back, y, x)
    requires Reaches(fwd, a, b)
    ensures Reaches(back, b, a)
  {
    var p :| PathBetween(fwd, p, a, b);
    hide Edge, Backwards;
    var r := Backwards(p);
    forall i | 0 <= i < |r| - 1 ensures Edge(back, r[i], r[i + 1]) {
      var j := |p| - 2 - i;
      assert Edge(fwd, p[j], p[j + 1]);
    }
    assert PathBetween(back, r, b, a);
  }

  /** Tracing up and tracing down are each other's converse. */
  lemma {:induction false} AncestorIffDescendant(g: Graph, a: PassportId, b: PassportId)
    requires Converse(g)
    ensures a in ReachedFrom(g.inputsOf, b) <==> b in ReachedFrom(g.outputsOf, a)
  {
    hide Edge, Reaches, ReachedFrom;
    if Reaches(g.inputsOf, b, a) {
      ReachesBack(g.inputsOf, g.outputsOf, b, a);
    }
    if Reaches(g.outputsOf, a, b) {
      ReachesBack(g.outputsOf, g.inputsOf, a, b);
    }
  }

  lemma {:induction false} ExtendingKeepsReach(g: Graph, h: Graph, a: PassportId, b: PassportId)
    requires Extends(g, h) && Reaches(g.outputsOf, a, b)
    ensures Reaches(h.outputsOf, a, b)
  {
    var p :| PathBetween(g.outputsOf, p, a, b);
    hide Edge;
    assert forall i :: 0 <= i < |p| - 1 ==> Edge(g.outputsOf, p[i], p[i + 1]);
    assert PathBetween(h.outputsOf, p, a, b);
  }

  // ----- taints and recalls

  ghost function RecallOf(g: Graph, root: PassportId): set<PassportId> {
    ReachedFrom(g.outputsOf, root) + {root}
  }

  function TaintsIn(sources: set<PassportId>, index: TaintIndex): set<Taint> {
    set s, t | s in sources && s in index && t in index[s] :: t
  }

  /** The taints of a passport and of everything it derives from. */
  ghost function EffectiveTaints(g: Graph, id: PassportId, index: TaintIndex): set<Taint> {
    TaintsIn(ReachedFrom(g.inputsOf, id) + {id}, index)
  }

  function Named(ids: seq<PassportId>): set<PassportId> {
    set id | id in ids
  }

  /** `inherit_taints`: the taints that the inputs of a combine carry themselves. */
  method InheritTaints(inputs: seq<PassportId>, index: TaintIndex) returns (out: TaintSet)
    ensures fresh(out) && out.entries == TaintsIn(Named(inputs), index)
  {
    out := new TaintSet();
    for i := 0 to |inputs|
      invariant fresh(out) && out.entries == TaintsIn(Named(inputs[..i]), index)
    {
      assert inputs[..i + 1] == inputs[..i] + [inputs[i]];
      assert Named(inputs[..i + 1]) == Named(inputs[..i]) + {inputs[i]};
      if inputs[i] in index {
        out.Merge(index[inputs[i]]);
      }
    }
    assert inputs[..|inputs|] == inputs;
  }

  /** A taint is effective on a passport exactly if a source in whose recall set the passport lies carries it. */
  lemma {:induction false} EffectiveExactly(g: Graph, id: PassportId, index: TaintIndex, t: Taint)
    requires Converse(g)
    ensures t in EffectiveTaints(g, id, index)
            <==> exists s :: s in index && t in index[s] && id in RecallOf(g, s)
  {
    hide Edge, Reaches, ReachedFrom, Converse;
    forall s ensures s in ReachedFrom(g.inputsOf, id) + {id} <==> id in RecallOf(g, s) {
      AncestorIffDescendant(g, s, id);
    }
  }

  /** Everything downstream of a passport carries all its taints; so a void passport voids all that is made of it. */
  lemma {:induction false} TaintFlowsDown(g: Graph, up: PassportId, down: PassportId, index: TaintIndex)
    requires Converse(g) && down in RecallOf(g, up)
    ensures EffectiveTaints(g, up, index) <= EffectiveTaints(g, down, index)
    ensures Voids(EffectiveTaints(g, up, index)) ==> Voids(EffectiveTaints(g, down, index))
    ensures Voids(EffectiveTaints(g, down, index)) <==>
            exists t :: t in EffectiveTaints(g, down, index) && (t.kind == Known(Misissued) || t.kind == Known(Fraud))
  {
    hide Edge, Reaches, ReachedFrom, Converse;
    forall t | t in EffectiveTaints(g, up, index) ensures t in EffectiveTaints(g, down, index) {
      EffectiveExactly(g, up, index, t);
      EffectiveExactly(g, down, index, t);
      var s :| s in index && t in index[s] && up in RecallOf(g, s);
      RecallThrough(g, s, up, down);
    }
  }

  lemma {:induction false} RecallThrough(g: Graph, a: PassportId, b: PassportId, c: PassportId)
    requires b in RecallOf(g, a) && c in RecallOf(g, b)
    ensures c in RecallOf(g, a)
  {
    hide Reaches, ReachedFrom;
    if a != b && b != c {
      ReachesThrough(g.outputsOf, a, b, c);
    }
  }

  /** Recording more edges never removes a taint. */
  lemma {:induction false} TaintsNeverShrink(g: Graph, rs: seq<Recording>, id: PassportId, index: TaintIndex)
    requires Converse(g)
    ensures EffectiveTaints(g, id, index) <= EffectiveTaints(RecordAll(g, rs), id, index)
  {
    hide Edge, Reaches, ReachedFrom, Converse, RecordAll, Extends;
    var h := RecordAll(g, rs);
    RecordingsKeepConverse(g, rs);
    forall t | t in EffectiveTaints(g, id, index) ensures t in EffectiveTaints(h, id, index) {
      EffectiveExactly(g, id, index, t);
      EffectiveExactly(h, id, index, t);
      var s :| s in index && t in index[s] && id in RecallOf(g, s);
      if s != id {
        ExtendingKeepsReach(g, h, s, id);
      }
      assert id in RecallOf(h, s);
    }
  }

  /** What a combine inherits is effective on its output once the combine is recorded. */
  lemma {:induction false} InheritedIsEffective(
    g: Graph, output: PassportId, inputs: seq<PassportId>, index: TaintIndex)
    requires Converse(g)
    ensures TaintsIn(Named(inputs), index) <= EffectiveTaints(LinkCombine(g, output, inputs), output, index)
  {
    hide Edge, Reaches, ReachedFrom, Converse, LinkCombine;
    var h := LinkCombine(g, output, inputs);
    CombineEdges(g, output, inputs);
    forall t | t in TaintsIn(Named(inputs), index) ensures t in EffectiveTaints(h, output, index) {
      var s :| s in inputs && s in index && t in index[s];
      EdgeReaches(h.outputsOf, s, output);
      EffectiveExactly(h, output, index, t);
      assert output in RecallOf(h, s);
    }
  }
}
