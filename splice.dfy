/** Node splicing (`replace_node_by_links`, src/heuristics.rs) and the two
    passes built on it, `remove_degree_two_nodes` and
    `remove_under_delta_nodes`, as functions on the graph value. `None`
    stands for a run that aborts. */
module Splicing {
  import opened Wrappers
  import opened Strings
  import opened Utils
  import opened Geo
  import opened Stores

  /** One pair of the nested loop of `replace_node_by_links`: link `a` and
      `b` both ways unless either direction exists already. */
  function LinkIfAbsent(st: Store, a: Id, b: Id): Option<Store>
  {
    if (a, b) in st.links || (b, a) in st.links then Some(st)
    else if a in st.nodes && b in st.nodes then Some(WithLink(WithLink(st, a, b), b, a))
    else None
  }

  /** The inner loop: the pairs `(ns[i], ns[j])` for `j` from `j0` on. */
  function LinkRow(st: Store, ns: seq<Id>, i: nat, j0: nat): Option<Store>
    requires i < j0 <= |ns|
    decreases |ns| - j0
  {
    if j0 == |ns| then Some(st)
    else
      var st1 :- LinkIfAbsent(st, ns[i], ns[j0]);
      LinkRow(st1, ns, i, j0 + 1)
  }

  /** One turn of the inner loop. */
  lemma LinkRowStep(st: Store, ns: seq<Id>, i: nat, j: nat)
    requires i < j < |ns| && LinkRow(st, ns, i, j).Some?
    ensures LinkIfAbsent(st, ns[i], ns[j]).Some?
    ensures LinkRow(st, ns, i, j) == LinkRow(LinkIfAbsent(st, ns[i], ns[j]).value, ns, i, j + 1)
  {
  }

  /** The outer loop: the rows `i` from `i0` on. */
  function LinkRows(st: Store, ns: seq<Id>, i0: nat): Option<Store>
    requires i0 <= |ns|
    decreases |ns| - i0
  {
    if i0 == |ns| then Some(st)
    else
      var st1 :- LinkRow(st, ns, i0, i0 + 1);
      LinkRows(st1, ns, i0 + 1)
  }

  /** `replace_node_by_links`: remove the node, then link every pair of its
      former neighbours that is not linked yet. */
  function Splice(st: Store, x: Id): Option<Store>
  {
    if !NodeRemovable(st, x) then None
    else LinkRows(WithoutNode(st, x), st.nodes[x].neighbours, 0)
  }

  /** Two distinct ids of a list. */
  ghost predicate AmongPairs(ns: seq<Id>, l: Link)
  {
    l.0 in ns && l.1 in ns && l.0 != l.1
  }

  /** The directed pairs the inner loop of row `i` visits from `j0` on. */
  function RowPairs(ns: seq<Id>, i: nat, j0: nat): set<Link>
    requires i < j0 <= |ns|
    decreases |ns| - j0
  {
    if j0 == |ns| then {} else {(ns[i], ns[j0]), (ns[j0], ns[i])} + RowPairs(ns, i, j0 + 1)
  }

  /** The directed pairs the loops visit from row `i0` on. */
  function AllPairs(ns: seq<Id>, i0: nat): set<Link>
    requires i0 <= |ns|
    decreases |ns| - i0
  {
    if i0 == |ns| then {} else RowPairs(ns, i0, i0 + 1) + AllPairs(ns, i0 + 1)
  }

  // ---------------------------------------------------------------------
  // One pair

  lemma LinkIfAbsentWf(st: Store, a: Id, b: Id)
    requires Wf(st) && a in st.nodes && b in st.nodes && a != b
    ensures LinkIfAbsent(st, a, b).Some?
    ensures var r := LinkIfAbsent(st, a, b).value;
      && Wf(r)
      && r.links.Keys == st.links.Keys + {(a, b), (b, a)}
      && r.nodes.Keys == st.nodes.Keys
  {
    if (a, b) !in st.links && (b, a) !in st.links {
      LinkPairWf(st, a, b);
    }
  }

  lemma LinkIfAbsentKeeps(st: Store, a: Id, b: Id)
    requires LinkIfAbsent(st, a, b).Some?
    ensures var r := LinkIfAbsent(st, a, b).value;
      && (forall l :: l in st.links ==> l in r.links && r.links[l] == st.links[l])
      && (forall u :: u in st.nodes ==> u in r.nodes && r.nodes[u] == st.nodes[u].(neighbours := r.nodes[u].neighbours))
  {
    if (a, b) !in st.links && (b, a) !in st.links && a != b {
      LinkPairLists(st, a, b);
    }
  }

  // ---------------------------------------------------------------------
  // The loops as one fold over the visited pairs

  /** The pairs of row `i` from `j0` on, in the order the inner loop takes them. */
  function RowSeq(ns: seq<Id>, i: nat, j0: nat): seq<Link>
    requires i < j0 <= |ns|
    decreases |ns| - j0
  {
    if j0 == |ns| then [] else [(ns[i], ns[j0])] + RowSeq(ns, i, j0 + 1)
  }

  /** The pairs of the rows from `i0` on, in loop order. */
  function PairSeq(ns: seq<Id>, i0: nat): seq<Link>
    requires i0 <= |ns|
    decreases |ns| - i0
  {
    if i0 == |ns| then [] else RowSeq(ns, i0, i0 + 1) + PairSeq(ns, i0 + 1)
  }

  /** `LinkIfAbsent` applied to each pair in turn. */
  function LinkAll(st: Store, ps: seq<Link>): Option<Store>
    decreases |ps|
  {
    if |ps| == 0 then Some(st)
    else
      var st1 :- LinkIfAbsent(st, ps[0].0, ps[0].1);
      LinkAll(st1, ps[1..])
  }

  /** Both directions of every pair. */
  function Both(ps: seq<Link>): set<Link>
    decreases |ps|
  {
    if |ps| == 0 then {} else {ps[0], (ps[0].1, ps[0].0)} + Both(ps[1..])
  }

  /** Pairs of two distinct nodes. */
  ghost predicate ProperPairs(keys: set<Id>, ps: seq<Link>)
  {
    forall k :: 0 <= k < |ps| ==> ps[k].0 in keys && ps[k].1 in keys && ps[k].0 != ps[k].1
  }

  lemma {:induction false} LinkAllAppend(st: Store, a: seq<Link>, b: seq<Link>)
    ensures LinkAll(st, a + b) == (if LinkAll(st, a).None? then None else LinkAll(LinkAll(st, a).value, b))
    decreases |a|
  {
    if |a| > 0 {
      assert (a + b)[1..] == a[1..] + b;
      var o := LinkIfAbsent(st, a[0].0, a[0].1);
      if o.Some? {
        LinkAllAppend(o.value, a[1..], b);
      }
    } else {
      assert a + b == b;
    }
  }

  lemma {:induction false} LinkRowIsLinkAll(st: Store, ns: seq<Id>, i: nat, j0: nat)
    requires i < j0 <= |ns|
    ensures LinkRow(st, ns, i, j0) == LinkAll(st, RowSeq(ns, i, j0))
    decreases |ns| - j0
  {
    if j0 < |ns| {
      var o := LinkIfAbsent(st, ns[i], ns[j0]);
      LinkAllCons(st, (ns[i], ns[j0]), RowSeq(ns, i, j0 + 1));
      if o.Some? {
        LinkRowIsLinkAll(o.value, ns, i, j0 + 1);
      }
    }
  }

  /** The first pair, then the rest. */
  lemma LinkAllCons(st: Store, l: Link, ps: seq<Link>)
    ensures LinkAll(st, [l] + ps)
      == (var o := LinkIfAbsent(st, l.0, l.1); if o.Some? then LinkAll(o.value, ps) else None)
  {
    assert ([l] + ps)[1..] == ps;
  }

  /** The nested loops take exactly the pairs of `PairSeq`, in order. */
  lemma {:induction false} LinkRowsIsLinkAll(st: Store, ns: seq<Id>, i0: nat)
    requires i0 <= |ns|
    ensures LinkRows(st, ns, i0) == LinkAll(st, PairSeq(ns, i0))
    decreases |ns| - i0
  {
    if i0 < |ns| {
      LinkRowIsLinkAll(st, ns, i0, i0 + 1);
      LinkAllAppend(st, RowSeq(ns, i0, i0 + 1), PairSeq(ns, i0 + 1));
      var o := LinkRow(st, ns, i0, i0 + 1);
      if o.Some? {
        LinkRowsIsLinkAll(o.value, ns, i0 + 1);
      }
    }
  }

  lemma {:induction false} LinkAllWf(st: Store, ps: seq<Link>)
    requires Wf(st) && ProperPairs(st.nodes.Keys, ps)
    ensures LinkAll(st, ps).Some?
    ensures var r := LinkAll(st, ps).value;
      && Wf(r)
      && r.nodes.Keys == st.nodes.Keys
      && r.links.Keys == st.links.Keys + Both(ps)
    decreases |ps|
  {
    if |ps| > 0 {
      LinkIfAbsentWf(st, ps[0].0, ps[0].1);
      var st1 := LinkIfAbsent(st, ps[0].0, ps[0].1).value;
      LinkAllWf(st1, ps[1..]);
    }
  }

  /** Whenever the fold succeeds, it keeps every existing link's slot and
      every node's id and coordinates. */
  lemma {:induction false} LinkAllKeeps(st: Store, ps: seq<Link>)
    requires LinkAll(st, ps).Some?
    ensures var r := LinkAll(st, ps).value;
      && (forall l :: l in st.links ==> l in r.links && r.links[l] == st.links[l])
      && (forall u :: u in st.nodes ==> u in r.nodes && r.nodes[u] == st.nodes[u].(neighbours := r.nodes[u].neighbours))
    decreases |ps|
  {
    if |ps| > 0 {
      var st1 := LinkIfAbsent(st, ps[0].0, ps[0].1).value;
      LinkIfAbsentKeeps(st, ps[0].0, ps[0].1);
      LinkAllKeeps(st1, ps[1..]);
    }
  }

  lemma {:induction false} BothAppend(a: seq<Link>, b: seq<Link>)
    ensures Both(a + b) == Both(a) + Both(b)
    decreases |a|
  {
    if |a| > 0 {
      assert (a + b)[1..] == a[1..] + b;
      BothAppend(a[1..], b);
    } else {
      assert a + b == b;
    }
  }

  lemma {:induction false} RowSeqPairs(ns: seq<Id>, i: nat, j0: nat, keys: set<Id>)
    requires i < j0 <= |ns|
    ensures Both(RowSeq(ns, i, j0)) == RowPairs(ns, i, j0)
    ensures Distinct(ns) && Elems(ns) <= keys ==> ProperPairs(keys, RowSeq(ns, i, j0))
    decreases |ns| - j0
  {
    if j0 < |ns| {
      RowSeqPairs(ns, i, j0 + 1, keys);
      assert ns[i] in Elems(ns) && ns[j0] in Elems(ns);
    }
  }

  lemma {:induction false} PairSeqPairs(ns: seq<Id>, i0: nat, keys: set<Id>)
    requires i0 <= |ns|
    ensures Both(PairSeq(ns, i0)) == AllPairs(ns, i0)
    ensures Distinct(ns) && Elems(ns) <= keys ==> ProperPairs(keys, PairSeq(ns, i0))
    decreases |ns| - i0
  {
    if i0 < |ns| {
      RowSeqPairs(ns, i0, i0 + 1, keys);
      PairSeqPairs(ns, i0 + 1, keys);
      BothAppend(RowSeq(ns, i0, i0 + 1), PairSeq(ns, i0 + 1));
    }
  }

  lemma {:induction false} RowPairsSpec(ns: seq<Id>, i: nat, j0: nat, l: Link)
    requires i < j0 <= |ns|
    ensures l in RowPairs(ns, i, j0) <==> exists q :: j0 <= q < |ns| && (l == (ns[i], ns[q]) || l == (ns[q], ns[i]))
    decreases |ns| - j0
  {
    if j0 < |ns| {
      RowPairsSpec(ns, i, j0 + 1, l);
    }
  }

  lemma {:induction false} AllPairsSpec(ns: seq<Id>, i0: nat, l: Link)
    requires i0 <= |ns|
    ensures l in AllPairs(ns, i0) <==> exists p, q :: i0 <= p < q < |ns| && (l == (ns[p], ns[q]) || l == (ns[q], ns[p]))
    decreases |ns| - i0
  {
    if i0 < |ns| {
      RowPairsSpec(ns, i0, i0 + 1, l);
      AllPairsSpec(ns, i0 + 1, l);
      if l in RowPairs(ns, i0, i0 + 1) {
        var q :| i0 + 1 <= q < |ns| && (l == (ns[i0], ns[q]) || l == (ns[q], ns[i0]));
        assert i0 <= i0 < q < |ns|;
      }
    }
  }

  /** The loops visit exactly the ordered pairs of distinct list members. */
  lemma AllPairsAmong(ns: seq<Id>, l: Link)
    requires Distinct(ns)
    ensures l in AllPairs(ns, 0) <==> AmongPairs(ns, l)
  {
    AllPairsSpec(ns, 0, l);
    if AmongPairs(ns, l) {
      var p :| 0 <= p < |ns| && ns[p] == l.0;
      var q :| 0 <= q < |ns| && ns[q] == l.1;
      if p < q {
        assert l == (ns[p], ns[q]);
      } else {
        assert q < p && l == (ns[p], ns[q]);
      }
    }
  }

  // ---------------------------------------------------------------------
  // `replace_node_by_links`

  /** `replace_node_by_links` on a well-formed graph does not abort, keeps
      the graph well-formed and removes exactly the spliced node; the node's
      links go, every pair of its former neighbours ends up linked both ways
      and no other link appears. */
  lemma SpliceWf(st: Store, x: Id)
    requires Wf(st) && x in st.nodes
    ensures Splice(st, x).Some?
    ensures var r := Splice(st, x).value; var ns := st.nodes[x].neighbours;
      && Wf(r)
      && r.nodes.Keys == st.nodes.Keys - {x}
      && (forall l :: l in r.links <==> l in LinksAvoiding(st.links.Keys, x) || AmongPairs(ns, l))
  {
    var ns := st.nodes[x].neighbours;
    RemoveNodeWf(st, x);
    var st1 := WithoutNode(st, x);
    NeighboursPresent(st, x);
    SlotsDistinct(st, x);
    LinkRowsIsLinkAll(st1, ns, 0);
    PairSeqPairs(ns, 0, st1.nodes.Keys);
    LinkAllWf(st1, PairSeq(ns, 0));
    forall l ensures l in AllPairs(ns, 0) <==> AmongPairs(ns, l) {
      AllPairsAmong(ns, l);
    }
  }

  /** `replace_node_by_links` only ever adds links: once the node is gone,
      every link keeps its slot and every node keeps its id and
      coordinates. */
  lemma SpliceKeeps(st: Store, x: Id)
    requires Splice(st, x).Some?
    ensures NodeRemovable(st, x)
    ensures var st1 := WithoutNode(st, x); var r := Splice(st, x).value;
      && (forall l :: l in st1.links ==> l in r.links && r.links[l] == st1.links[l])
      && (forall u :: u in st1.nodes ==> u in r.nodes && r.nodes[u] == st1.nodes[u].(neighbours := r.nodes[u].neighbours))
  {
    var ns := st.nodes[x].neighbours;
    var st1 := WithoutNode(st, x);
    LinkRowsIsLinkAll(st1, ns, 0);
    LinkAllKeeps(st1, PairSeq(ns, 0));
  }

  /** On a well-formed graph every node left by `replace_node_by_links`
      keeps its id and coordinates. */
  lemma SpliceRecords(st: Store, x: Id)
    requires Wf(st) && x in st.nodes
    ensures Splice(st, x).Some?
    ensures var r := Splice(st, x).value;
      forall u :: u in r.nodes ==> u in st.nodes && r.nodes[u] == st.nodes[u].(neighbours := r.nodes[u].neighbours)
  {
    SpliceWf(st, x);
    SpliceKeeps(st, x);
    RemoveNodeLists(st, x);
  }

  /** The neighbour lists after `replace_node_by_links`: `x` disappears
      from every list, and each former neighbour of `x` is now adjacent to
      all the others. */
  lemma SpliceNeighbours(st: Store, x: Id, u: Id, v: Id)
    requires Wf(st) && x in st.nodes && u in st.nodes && u != x
    ensures Splice(st, x).Some?
    ensures var r := Splice(st, x).value; var ns := st.nodes[x].neighbours;
      u in r.nodes &&
      (v in r.nodes[u].neighbours <==> (v in st.nodes[u].neighbours && v != x) || (u in ns && v in ns && u != v))
  {
    SpliceWf(st, x);
    var r := Splice(st, x).value;
    ListedIffLinked(r, u, v);
    ListedIffLinked(st, u, v);
  }

  // ---------------------------------------------------------------------
  // `remove_degree_two_nodes`

  /** The snapshot of `remove_degree_two_nodes`: the nodes with exactly two
      neighbours, in the order the table is walked. */
  function DegreeTwo(st: Store, order: seq<Id>): (r: seq<Id>)
    ensures forall u :: u in r <==> u in order && u in st.nodes && |st.nodes[u].neighbours| == 2
    ensures Distinct(order) ==> Distinct(r)
    decreases |order|
  {
    if |order| == 0 then []
    else
      var u := order[|order| - 1];
      var front := DegreeTwo(st, order[..|order| - 1]);
      assert forall v :: v in order <==> v in order[..|order| - 1] || v == u;
      if u in st.nodes && |st.nodes[u].neighbours| == 2 then front + [u] else front
  }

  /** The splicing loop over a snapshot of ids. */
  function SpliceAll(st: Store, xs: seq<Id>): Option<Store>
    decreases |xs|
  {
    if |xs| == 0 then Some(st)
    else
      var st1 :- Splice(st, xs[0]);
      SpliceAll(st1, xs[1..])
  }

  /** `remove_degree_two_nodes` with the table walked in `order`. */
  function RemoveDegreeTwo(st: Store, order: seq<Id>): Option<Store>
  {
    SpliceAll(st, DegreeTwo(st, order))
  }

  /** Splicing a duplicate-free run of present nodes out of a well-formed
      graph removes exactly those nodes and keeps the graph well-formed. */
  lemma {:induction false} SpliceAllWf(st: Store, xs: seq<Id>)
    requires Wf(st) && Distinct(xs) && Elems(xs) <= st.nodes.Keys
    ensures SpliceAll(st, xs).Some?
    ensures Wf(SpliceAll(st, xs).value) && SpliceAll(st, xs).value.nodes.Keys == st.nodes.Keys - Elems(xs)
    decreases |xs|
  {
    if |xs| > 0 {
      assert xs[0] in Elems(xs);
      SpliceWf(st, xs[0]);
      var st1 := Splice(st, xs[0]).value;
      ElemsTail(xs);
      SpliceAllWf(st1, xs[1..]);
    }
  }

  /** `remove_degree_two_nodes` removes exactly the nodes that had two
      neighbours in the snapshot, even those whose degree changed while the
      pass ran, and keeps every other node. */
  lemma RemoveDegreeTwoWf(st: Store, order: seq<Id>)
    requires Wf(st) && IsEnumeration(order, st.nodes.Keys)
    ensures RemoveDegreeTwo(st, order).Some?
    ensures var r := RemoveDegreeTwo(st, order).value;
      && Wf(r)
      && (forall u :: u in r.nodes <==> u in st.nodes && |st.nodes[u].neighbours| != 2)
  {
    SpliceAllWf(st, DegreeTwo(st, order));
  }

  // ---------------------------------------------------------------------
  // `remove_under_delta_nodes`

  /** The `remove` flag for node `u`: no neighbour is farther than `delta`. */
  predicate Removable(st: Store, geo: Geometry, delta: real, u: Id)
    requires u in st.nodes
  {
    forall v :: v in st.nodes[u].neighbours ==> v in st.nodes && !(Distance(geo, st.nodes[u], st.nodes[v]) > delta)
  }

  /** What the visit of `u` needs in order not to abort: the node, and every
      neighbour looked at before the first far one. */
  predicate Visitable(st: Store, geo: Geometry, delta: real, u: Id)
  {
    u in st.nodes && NeighboursLookable(st, geo, delta, st.nodes[u], st.nodes[u].neighbours)
  }

  /** The neighbour loop with its early `break`: it looks neighbours up in
      order and stops at the first one farther than `delta`. */
  predicate NeighboursLookable(st: Store, geo: Geometry, delta: real, node: Node, ns: seq<Id>)
    decreases |ns|
  {
    |ns| == 0 ||
    (ns[0] in st.nodes && (Distance(geo, node, st.nodes[ns[0]]) > delta || NeighboursLookable(st, geo, delta, node, ns[1..])))
  }

  /** The visit of one node by `remove_under_delta_nodes`. */
  function VisitNode(st: Store, geo: Geometry, delta: real, u: Id): Option<Store>
  {
    if !Visitable(st, geo, delta, u) then None
    else if Removable(st, geo, delta, u) then Splice(st, u)
    else Some(st)
  }

  /** `remove_under_delta_nodes` with the shuffle fixed to `order`. */
  function RemoveUnderDeltaNodes(st: Store, geo: Geometry, delta: real, order: seq<Id>): Option<Store>
    decreases |order|
  {
    if |order| == 0 then Some(st)
    else
      var st1 :- VisitNode(st, geo, delta, order[0]);
      RemoveUnderDeltaNodes(st1, geo, delta, order[1..])
  }

  /** In a well-formed graph every neighbour can be looked up. */
  lemma LookableWf(st: Store, geo: Geometry, delta: real, node: Node, ns: seq<Id>)
    requires Elems(ns) <= st.nodes.Keys
    ensures NeighboursLookable(st, geo, delta, node, ns)
    decreases |ns|
  {
    if |ns| > 0 {
      assert ns[0] in Elems(ns);
      assert Elems(ns[1..]) <= Elems(ns);
      LookableWf(st, geo, delta, node, ns[1..]);
    }
  }

  /** A node with no neighbours is always removed. */
  lemma IsolatedRemoved(st: Store, geo: Geometry, delta: real, u: Id)
    requires u in st.nodes && st.nodes[u].neighbours == []
    ensures VisitNode(st, geo, delta, u) == Some(Store(st.nodes - {u}, st.links))
  {
    RemoveIsolatedNode(st, u);
  }

  /** One visit on a well-formed graph deletes the visited node when no
      neighbour is farther than `delta`, and no other node ever. */
  lemma VisitNodeWf(st: Store, geo: Geometry, delta: real, u: Id)
    requires Wf(st) && u in st.nodes
    ensures VisitNode(st, geo, delta, u).Some?
    ensures var r := VisitNode(st, geo, delta, u).value;
      && Wf(r)
      && r.nodes.Keys == st.nodes.Keys - (if Removable(st, geo, delta, u) then {u} else {})
  {
    NeighboursPresent(st, u);
    LookableWf(st, geo, delta, st.nodes[u], st.nodes[u].neighbours);
    if Removable(st, geo, delta, u) {
      SpliceWf(st, u);
    }
  }

  /** `remove_under_delta_nodes` on a well-formed graph does not abort,
      keeps it well-formed, and deletes only visited nodes. */
  lemma {:induction false} RemoveUnderDeltaNodesWf(st: Store, geo: Geometry, delta: real, order: seq<Id>)
    requires Wf(st) && Distinct(order) && Elems(order) <= st.nodes.Keys
    ensures RemoveUnderDeltaNodes(st, geo, delta, order).Some?
    ensures var r := RemoveUnderDeltaNodes(st, geo, delta, order).value;
      && Wf(r)
      && r.nodes.Keys <= st.nodes.Keys
      && st.nodes.Keys - Elems(order) <= r.nodes.Keys
    decreases |order|
  {
    if |order| > 0 {
      assert order[0] in Elems(order);
      VisitNodeWf(st, geo, delta, order[0]);
      var st1 := VisitNode(st, geo, delta, order[0]).value;
      ElemsTail(order);
      RemoveUnderDeltaNodesWf(st1, geo, delta, order[1..]);
    }
  }
}
