/**
 * Commit-graph layout engine, part 3: `computeGeometry` and `routeEdges`
 * (src/commit-graph/layout.js). Coordinates are integers here; the bezier
 * control points are not part of this model.
 */
module LayoutGeometry {
  import opened Wrappers
  import opened Layout

  /** The layout sizes a caller may pass; `None` is a missing (undefined) field. */
  datatype Config = Config(
    colWidth: Option<int>,
    rowHeight: Option<int>,
    nodeRadius: Option<int>,
    colPad: Option<int>,
    rowPad: Option<int>)

  /** The sizes actually used, returned alongside the nodes. */
  datatype Sizes = Sizes(colWidth: int, rowHeight: int, nodeRadius: int, colPad: int, rowPad: int)

  function OrDefault(o: Option<int>, d: int): int {
    if o.Some? then o.value else d
  }

  /**
   * The destructuring of `cfg || {}`: a missing configuration or a missing
   * field falls back to 22 / 28 / 6 / 20 / 14.
   */
  function SizesOf(cfg: Option<Config>): Sizes {
    var c := if cfg.Some? then cfg.value else Config(None, None, None, None, None);
    Sizes(OrDefault(c.colWidth, 22), OrDefault(c.rowHeight, 28), OrDefault(c.nodeRadius, 6),
          OrDefault(c.colPad, 20), OrDefault(c.rowPad, 14))
  }

  /**
   * Without a configuration the sizes are 22 / 28 / 6 / 20 / 14; a size the
   * configuration gives is used as given, and a size it leaves out keeps its
   * default.
   */
  lemma SizesDefaults(cfg: Option<Config>)
    ensures cfg.None? ==> SizesOf(cfg) == Sizes(22, 28, 6, 20, 14)
    ensures cfg.Some? ==>
      (cfg.value.colWidth.Some? ==> SizesOf(cfg).colWidth == cfg.value.colWidth.value) &&
      (cfg.value.colWidth.None? ==> SizesOf(cfg).colWidth == 22) &&
      (cfg.value.rowHeight.Some? ==> SizesOf(cfg).rowHeight == cfg.value.rowHeight.value) &&
      (cfg.value.rowHeight.None? ==> SizesOf(cfg).rowHeight == 28) &&
      (cfg.value.nodeRadius.Some? ==> SizesOf(cfg).nodeRadius == cfg.value.nodeRadius.value) &&
      (cfg.value.nodeRadius.None? ==> SizesOf(cfg).nodeRadius == 6) &&
      (cfg.value.colPad.Some? ==> SizesOf(cfg).colPad == cfg.value.colPad.value) &&
      (cfg.value.colPad.None? ==> SizesOf(cfg).colPad == 20) &&
      (cfg.value.rowPad.Some? ==> SizesOf(cfg).rowPad == cfg.value.rowPad.value) &&
      (cfg.value.rowPad.None? ==> SizesOf(cfg).rowPad == 14)
  {
  }

  datatype Node = Node(id: string, x: int, y: int, lane: int, r: int, commit: Commit)

  datatype Geometry = Geometry(nodes: seq<Node>, nodeIndex: map<string, nat>, sizes: Sizes)

  /** Every entry of the node index points at a node. */
  predicate ValidGeometry(g: Geometry) {
    forall id :: id in g.nodeIndex ==> g.nodeIndex[id] < |g.nodes|
  }

  /** `laneByCommit.get(id) || 0` */
  function LaneOf(laneByCommit: map<string, nat>, id: string): nat {
    if id in laneByCommit then laneByCommit[id] else 0
  }

  /** The row positions whose id is in the index, in order: the rows that get a node. */
  function Kept(rows: seq<string>, byId: map<string, Commit>): (ks: seq<nat>)
    ensures forall k :: 0 <= k < |ks| ==> ks[k] < |rows| && rows[ks[k]] in byId
    ensures forall k1, k2 :: 0 <= k1 < k2 < |ks| ==> ks[k1] < ks[k2]
    ensures forall i :: 0 <= i < |rows| && rows[i] in byId ==> i in ks
  {
    if rows == [] then []
    else
      var init := Kept(rows[..|rows| - 1], byId);
      if rows[|rows| - 1] in byId then init + [|rows| - 1] else init
  }

  /** The node drawn for commit `c` with id `id`, in lane `lane` on row `i`. */
  function NodeFor(id: string, i: nat, c: Commit, lane: nat, s: Sizes): Node {
    Node(id, s.colPad + lane * s.colWidth, s.rowPad + i * s.rowHeight, lane, s.nodeRadius, c)
  }

  /** The node `computeGeometry` draws for row `i`. */
  function NodeAt(rows: seq<string>, i: nat, byId: map<string, Commit>, laneByCommit: map<string, nat>, s: Sizes): Node
    requires i < |rows| && rows[i] in byId
  {
    NodeFor(rows[i], i, byId[rows[i]], LaneOf(laneByCommit, rows[i]), s)
  }

  /** The nodes `computeGeometry` pushes, row by row. */
  function NodesOf(rows: seq<string>, byId: map<string, Commit>, laneByCommit: map<string, nat>, s: Sizes): seq<Node> {
    if rows == [] then []
    else
      var init := NodesOf(rows[..|rows| - 1], byId, laneByCommit, s);
      if rows[|rows| - 1] in byId then init + [NodeAt(rows, |rows| - 1, byId, laneByCommit, s)] else init
  }

  /** The node index `computeGeometry` fills: each drawn id set to the position of the node just pushed. */
  function NodeIndexOf(rows: seq<string>, byId: map<string, Commit>): map<string, nat> {
    if rows == [] then map[]
    else
      var init := rows[..|rows| - 1];
      if rows[|rows| - 1] in byId then NodeIndexOf(init, byId)[rows[|rows| - 1] := |Kept(init, byId)|]
      else NodeIndexOf(init, byId)
  }

  /** `computeGeometry` */
  method ComputeGeometry(rows: seq<string>, commitById: map<string, Commit>, laneByCommit: map<string, nat>, cfg: Option<Config>)
    returns (g: Geometry)
    ensures g.sizes == SizesOf(cfg)
    ensures g.nodes == NodesOf(rows, commitById, laneByCommit, g.sizes)
    ensures g.nodeIndex == NodeIndexOf(rows, commitById)
  {
    var s := SizesOf(cfg);
    var nodes: seq<Node> := [];
    var nodeIndex: map<string, nat> := map[];
    for i := 0 to |rows|
      invariant nodes == NodesOf(rows[..i], commitById, laneByCommit, s)
      invariant nodeIndex == NodeIndexOf(rows[..i], commitById)
    {
      assert rows[..i + 1][..i] == rows[..i];
      NodesOfSpec(rows[..i], commitById, laneByCommit, s);
      var id := rows[i];
      if id !in commitById {
        continue;
      }
      var c := commitById[id];
      var lane := LaneOf(laneByCommit, id);
      var x := s.colPad + lane * s.colWidth;
      var y := s.rowPad + i * s.rowHeight;
      nodes := nodes + [Node(id, x, y, lane, s.nodeRadius, c)];
      assert NodeAt(rows[..i + 1], i, commitById, laneByCommit, s) == NodeFor(id, i, c, lane, s);
      nodeIndex := nodeIndex[id := |nodes| - 1];
    }
    assert rows[..|rows|] == rows;
    g := Geometry(nodes, nodeIndex, s);
  }

  /**
   * One node per row whose id is in the index, in row order, drawn by
   * `NodeFor` at `x = colPad + lane * colWidth`, `y = rowPad + i * rowHeight`,
   * where `i` is the row position counting skipped rows and the lane
   * defaults to 0.
   */
  lemma {:induction false} NodesOfSpec(rows: seq<string>, byId: map<string, Commit>, laneByCommit: map<string, nat>, s: Sizes)
    ensures var ns := NodesOf(rows, byId, laneByCommit, s); var ks := Kept(rows, byId);
      |ns| == |ks| &&
      forall k :: 0 <= k < |ns| ==>
        ns[k] == NodeFor(rows[ks[k]], ks[k], byId[rows[ks[k]]], LaneOf(laneByCommit, rows[ks[k]]), s)
  {
    if rows != [] {
      var init := rows[..|rows| - 1];
      NodesOfSpec(init, byId, laneByCommit, s);
    }
  }

  /** `nodeIndex` has exactly the drawn ids as keys. */
  lemma {:induction false} NodeIndexKeys(rows: seq<string>, byId: map<string, Commit>)
    ensures NodeIndexOf(rows, byId).Keys == set id | id in rows && id in byId
  {
    if rows != [] {
      var init := rows[..|rows| - 1];
      NodeIndexKeys(init, byId);
      assert forall id :: id in rows <==> id in init || id == rows[|rows| - 1];
    }
  }

  /** `nodeIndex` maps each drawn id to the position of the last drawn row carrying it. */
  lemma NodeIndexKept(rows: seq<string>, byId: map<string, Commit>)
    ensures var ks := Kept(rows, byId); var ix := NodeIndexOf(rows, byId);
      forall id :: id in ix ==>
        ix[id] < |ks| && rows[ks[ix[id]]] == id &&
        forall k :: ix[id] < k < |ks| ==> rows[ks[k]] != id
  {
    forall id | id in NodeIndexOf(rows, byId)
      ensures var ks := Kept(rows, byId); var ix := NodeIndexOf(rows, byId);
        ix[id] < |ks| && rows[ks[ix[id]]] == id &&
        forall k :: ix[id] < k < |ks| ==> rows[ks[k]] != id
    {
      NodeIndexKeptAt(rows, byId, id);
    }
  }

  lemma {:induction false} NodeIndexKeptAt(rows: seq<string>, byId: map<string, Commit>, id: string)
    requires id in NodeIndexOf(rows, byId)
    ensures var ks := Kept(rows, byId); var ix := NodeIndexOf(rows, byId);
      ix[id] < |ks| && rows[ks[ix[id]]] == id &&
      forall k :: ix[id] < k < |ks| ==> rows[ks[k]] != id
  {
    var init := rows[..|rows| - 1];
    var last := rows[|rows| - 1];
    if last in byId && id == last {
      assert Kept(rows, byId) == Kept(init, byId) + [|rows| - 1];
    } else {
      NodeIndexKeptAt(init, byId, id);
      NodeIndexKeptStep(rows, byId, id);
    }
  }

  /** The step of `NodeIndexKeptAt` for an id that is not the last row's. */
  lemma NodeIndexKeptStep(rows: seq<string>, byId: map<string, Commit>, id: string)
    requires rows != [] && id in NodeIndexOf(rows, byId)
    requires !(rows[|rows| - 1] in byId && id == rows[|rows| - 1])
    requires var init := rows[..|rows| - 1]; var ks := Kept(init, byId); var ix := NodeIndexOf(init, byId);
      id in ix && ix[id] < |ks| && init[ks[ix[id]]] == id &&
      forall k :: ix[id] < k < |ks| ==> init[ks[k]] != id
    ensures var ks := Kept(rows, byId); var ix := NodeIndexOf(rows, byId);
      ix[id] < |ks| && rows[ks[ix[id]]] == id &&
      forall k :: ix[id] < k < |ks| ==> rows[ks[k]] != id
  {
    var init := rows[..|rows| - 1];
    var ks0 := Kept(init, byId);
    var ks := Kept(rows, byId);
    var i := NodeIndexOf(rows, byId)[id];
    assert i == NodeIndexOf(init, byId)[id];
    KeptSnoc(rows, byId);
    assert rows[ks[i]] == id by {
      assert ks[i] == ks0[i] && ks0[i] < |init|;
    }
    forall k | i < k < |ks| ensures rows[ks[k]] != id {
      if k < |ks0| {
        assert ks[k] == ks0[k] && ks0[k] < |init|;
        assert init[ks0[k]] != id;
      }
    }
  }

  lemma KeptSnoc(rows: seq<string>, byId: map<string, Commit>)
    requires rows != []
    ensures Kept(rows, byId) ==
      Kept(rows[..|rows| - 1], byId) + (if rows[|rows| - 1] in byId then [|rows| - 1] else [])
  {
  }

  /** Hence `nodeIndex[id]` is the position of the last node with that id. */
  lemma NodeIndexSpec(rows: seq<string>, byId: map<string, Commit>, laneByCommit: map<string, nat>, s: Sizes)
    ensures var ns := NodesOf(rows, byId, laneByCommit, s); var ix := NodeIndexOf(rows, byId);
      ix.Keys == (set id | id in rows && id in byId) &&
      forall id :: id in ix ==>
        ix[id] < |ns| && ns[ix[id]].id == id &&
        forall k :: ix[id] < k < |ns| ==> ns[k].id != id
  {
    NodeIndexKeys(rows, byId);
    NodeIndexKept(rows, byId);
    NodesOfSpec(rows, byId, laneByCommit, s);
  }

  /** The geometry `computeGeometry` returns has a node behind every index entry. */
  lemma ComputedGeometryValid(rows: seq<string>, byId: map<string, Commit>, laneByCommit: map<string, nat>, cfg: Option<Config>)
    ensures ValidGeometry(Geometry(NodesOf(rows, byId, laneByCommit, SizesOf(cfg)), NodeIndexOf(rows, byId), SizesOf(cfg)))
  {
    NodeIndexKept(rows, byId);
    NodesOfSpec(rows, byId, laneByCommit, SizesOf(cfg));
  }

  // ---------------------------------------------------------------------------
  // routeEdges
  // ---------------------------------------------------------------------------

  datatype Point = Point(x: int, y: int)

  datatype EdgeKind = Line | Bezier

  datatype Edge = Edge(key: string, from: Point, to: Point, kind: EdgeKind)

  /** The edge from child node `n` to parent node `pn`; a straight line only within one lane. */
  function MakeEdge(n: Node, pn: Node, pid: string): Edge {
    Edge(n.id + "->" + pid, Point(n.x, n.y), Point(pn.x, pn.y), if pn.lane == n.lane then Line else Bezier)
  }

  /** The parents that have a node, in parent order. */
  function Drawn(ps: seq<string>, nodeIndex: map<string, nat>): (ds: seq<string>)
    ensures |ds| <= |ps|
  {
    if ps == [] then []
    else
      var init := Drawn(ps[..|ps| - 1], nodeIndex);
      if ps[|ps| - 1] in nodeIndex then init + [ps[|ps| - 1]] else init
  }

  /** The edges of one node, parent by parent; parents without a node are skipped. */
  function NodeEdges(g: Geometry, n: Node, ps: seq<string>): (es: seq<Edge>)
    requires ValidGeometry(g)
    ensures |es| <= |ps|
  {
    if ps == [] then []
    else
      var init := NodeEdges(g, n, ps[..|ps| - 1]);
      var pid := ps[|ps| - 1];
      if pid in g.nodeIndex then init + [MakeEdge(n, g.nodes[g.nodeIndex[pid]], pid)] else init
  }

  /** Exactly the parents that have a node are drawn. */
  lemma {:induction false} DrawnSpec(ps: seq<string>, nodeIndex: map<string, nat>)
    ensures forall p :: p in Drawn(ps, nodeIndex) <==> p in ps && p in nodeIndex
  {
    if ps != [] {
      DrawnSpec(ps[..|ps| - 1], nodeIndex);
      assert forall p :: p in ps <==> p in ps[..|ps| - 1] || p == ps[|ps| - 1];
    }
  }

  /** Edge `k` of a node goes to its `k`-th drawn parent: the edges keep parent order. */
  lemma {:induction false} NodeEdgesOrder(g: Geometry, n: Node, ps: seq<string>)
    requires ValidGeometry(g)
    ensures var es := NodeEdges(g, n, ps); var ds := Drawn(ps, g.nodeIndex);
      |es| == |ds| &&
      forall k :: 0 <= k < |es| ==> ds[k] in g.nodeIndex && es[k] == MakeEdge(n, g.nodes[g.nodeIndex[ds[k]]], ds[k])
  {
    if ps != [] {
      NodeEdgesOrder(g, n, ps[..|ps| - 1]);
    }
  }

  /** The edges of the nodes `ns`, node by node; a node whose id is not in the index has none. */
  function AllEdges(g: Geometry, byId: map<string, Commit>, ns: seq<Node>): seq<Edge>
    requires ValidGeometry(g)
  {
    if ns == [] then []
    else
      var n := ns[|ns| - 1];
      AllEdges(g, byId, ns[..|ns| - 1]) + (if n.id in byId then NodeEdges(g, n, ParentsOf(byId[n.id])) else [])
  }

  /**
   * `routeEdges`: the edges, node by node and parent by parent. The
   * `parentLanesByCommit` argument is read by the source but never used.
   */
  method RouteEdges(g: Geometry, commitById: map<string, Commit>, parentLanesByCommit: map<string, seq<nat>>)
    returns (edges: seq<Edge>)
    requires ValidGeometry(g)
    ensures edges == AllEdges(g, commitById, g.nodes)
  {
    edges := [];
    for j := 0 to |g.nodes|
      invariant edges == AllEdges(g, commitById, g.nodes[..j])
    {
      var n := g.nodes[j];
      assert g.nodes[..j + 1][..j] == g.nodes[..j];
      if n.id !in commitById {
        continue;
      }
      edges := AddNodeEdges(g, n, ParentsOf(commitById[n.id]), edges);
    }
    assert g.nodes[..|g.nodes|] == g.nodes;
  }

  /** The inner loop of `routeEdges`: pushes the edges of node `n`, parent by parent. */
  method AddNodeEdges(g: Geometry, n: Node, parents: seq<string>, edges0: seq<Edge>) returns (edges: seq<Edge>)
    requires ValidGeometry(g)
    ensures edges == edges0 + NodeEdges(g, n, parents)
  {
    edges := edges0;
    for i := 0 to |parents|
      invariant edges == edges0 + NodeEdges(g, n, parents[..i])
    {
      assert parents[..i + 1][..i] == parents[..i];
      var pid := parents[i];
      if pid !in g.nodeIndex {
        continue;
      }
      var pn := g.nodes[g.nodeIndex[pid]];
      edges := edges + [MakeEdge(n, pn, pid)];
    }
    assert parents[..|parents|] == parents;
  }

  /**
   * An edge is routed exactly for each (node, parent) pair whose commit is in
   * the index and whose parent has a node; it goes from the child's point to
   * the parent's point, is keyed `child->parent`, and is a line exactly when
   * both nodes are in the same lane.
   */
  lemma {:induction false} AllEdgesSpec(g: Geometry, byId: map<string, Commit>, ns: seq<Node>, e: Edge)
    requires ValidGeometry(g)
    ensures e in AllEdges(g, byId, ns) <==>
      exists n, p :: n in ns && n.id in byId && p in ParentsOf(byId[n.id]) && p in g.nodeIndex &&
        e == MakeEdge(n, g.nodes[g.nodeIndex[p]], p)
  {
    if ns != [] {
      var init := ns[..|ns| - 1];
      var n := ns[|ns| - 1];
      AllEdgesSpec(g, byId, init, e);
      assert forall m :: m in ns <==> m in init || m == n;
      if n.id in byId {
        NodeEdgesSpec(g, n, ParentsOf(byId[n.id]), e);
      }
    }
  }

  /** The edges of one node are those to each of its parents that has a node. */
  lemma {:induction false} NodeEdgesSpec(g: Geometry, n: Node, ps: seq<string>, e: Edge)
    requires ValidGeometry(g)
    ensures e in NodeEdges(g, n, ps) <==>
      exists p :: p in ps && p in g.nodeIndex && e == MakeEdge(n, g.nodes[g.nodeIndex[p]], p)
  {
    if ps != [] {
      NodeEdgesSpec(g, n, ps[..|ps| - 1], e);
      assert forall p :: p in ps <==> p in ps[..|ps| - 1] || p == ps[|ps| - 1];
    }
  }

  /**
   * The kind is `line` exactly when child and parent share a lane. This
   * unfolds `MakeEdge`, stated as the edge's meaning.
   */
  lemma EdgeKindSpec(n: Node, pn: Node, pid: string)
    ensures MakeEdge(n, pn, pid).kind == Line <==> pn.lane == n.lane
    ensures MakeEdge(n, pn, pid).from == Point(n.x, n.y) && MakeEdge(n, pn, pid).to == Point(pn.x, pn.y)
  {
  }
}
