/** The value view of the graph store of src/graph.rs: the node table and
    the link table, the effect of each store operation as a function, and
    the index invariant with the lemmas that these operations keep it. */
module Stores {
  import opened Strings
  import opened Utils

  /** `nodes` maps an id to its node; `links` maps a directed link
      `(source, target)` to the position of `target` in the source's
      neighbour list. */
  datatype Store = Store(nodes: map<Id, Node>, links: map<Link, nat>)

  const Empty: Store := Store(map[], map[])

  /** `insert_node`: a no-op when the id is already present. */
  function WithNode(st: Store, node: Node): Store
  {
    if node.id in st.nodes then st else st.(nodes := st.nodes[node.id := node])
  }

  /** `insert_link`: the target is pushed onto the source's neighbour list
      and its new position is recorded (an existing entry is overwritten). */
  function WithLink(st: Store, s: Id, t: Id): Store
    requires s in st.nodes
  {
    var n := st.nodes[s];
    Store(st.nodes[s := n.(neighbours := n.neighbours + [t])], st.links[(s, t) := |n.neighbours|])
  }

  /** What `remove_link` needs in order not to abort: the entry, its source
      node, and a slot in range for `swap_remove`. */
  predicate LinkRemovable(st: Store, s: Id, t: Id)
  {
    (s, t) in st.links && s in st.nodes && st.links[(s, t)] < |st.nodes[s].neighbours|
  }

  /** `Vec::swap_remove(k)`: the last element moves into slot `k`. */
  function SwapRemove<T>(xs: seq<T>, k: nat): (r: seq<T>)
    requires k < |xs|
    ensures |r| == |xs| - 1
    ensures forall i :: 0 <= i < |r| && i != k ==> r[i] == xs[i]
    ensures k < |r| ==> r[k] == xs[|xs| - 1]
  {
    xs[k := xs[|xs| - 1]][..|xs| - 1]
  }

  /** `remove_link`: swap-remove slot `k`, then re-point the entry of the
      neighbour that moved into slot `k`. */
  function WithoutLink(st: Store, s: Id, t: Id): Store
    requires LinkRemovable(st, s, t)
  {
    var k := st.links[(s, t)];
    var ns := st.nodes[s].neighbours;
    var nodes := st.nodes[s := st.nodes[s].(neighbours := SwapRemove(ns, k))];
    var links := st.links - {(s, t)};
    if k == |ns| - 1 then Store(nodes, links)
    else Store(nodes, links[(s, ns[|ns| - 1]) := k])
  }

  /** What one turn of the loop of `remove_node` needs in order not to
      abort: the edge can be unlinked in both directions. */
  predicate PairRemovable(st: Store, a: Id, b: Id)
  {
    LinkRemovable(st, a, b) && LinkRemovable(WithoutLink(st, a, b), b, a)
  }

  /** One turn of the loop of `remove_node`: `remove_link(a, b)`, then
      `remove_link(b, a)`. */
  function Unlink(st: Store, a: Id, b: Id): Store
    requires PairRemovable(st, a, b)
  {
    WithoutLink(WithoutLink(st, a, b), b, a)
  }

  /** What the loop of `remove_node` needs in order not to abort: each
      neighbour in turn can be unlinked in both directions. */
  predicate Detachable(st: Store, x: Id, ns: seq<Id>)
    decreases |ns|
  {
    |ns| == 0 || (PairRemovable(st, x, ns[0]) && Detachable(Unlink(st, x, ns[0]), x, ns[1..]))
  }

  /** The loop of `remove_node` over a copy `ns` of the neighbour list. */
  function DetachAll(st: Store, x: Id, ns: seq<Id>): Store
    requires Detachable(st, x, ns)
    decreases |ns|
  {
    if |ns| == 0 then st else DetachAll(Unlink(st, x, ns[0]), x, ns[1..])
  }

  predicate NodeRemovable(st: Store, x: Id)
  {
    x in st.nodes && Detachable(st, x, st.nodes[x].neighbours)
  }

  /** `remove_node`: unlink every neighbour in both directions, then drop the node. */
  function WithoutNode(st: Store, x: Id): Store
    requires NodeRemovable(st, x)
  {
    var r := DetachAll(st, x, st.nodes[x].neighbours);
    Store(r.nodes - {x}, r.links)
  }

  // ---------------------------------------------------------------------
  // Invariants

  /** The index invariant: every entry `(u, v) -> k` has a source node whose
      neighbour list holds `v` at position `k`. */
  ghost predicate IndexInvariant(st: Store)
  {
    forall l :: l in st.links ==>
      l.0 in st.nodes && st.links[l] < |st.nodes[l.0].neighbours| && st.nodes[l.0].neighbours[st.links[l]] == l.1
  }

  /** Every slot of every neighbour list has its entry. */
  ghost predicate SlotsLinked(st: Store)
  {
    forall u, i :: u in st.nodes && 0 <= i < |st.nodes[u].neighbours| ==>
      (u, st.nodes[u].neighbours[i]) in st.links && st.links[(u, st.nodes[u].neighbours[i])] == i
  }

  /** Every link is present in both directions. */
  ghost predicate Symmetric(st: Store)
  {
    forall l :: l in st.links ==> (l.1, l.0) in st.links
  }

  ghost predicate Loopless(st: Store)
  {
    forall l :: l in st.links ==> l.0 != l.1
  }

  /** Every node is stored under its own id. */
  ghost predicate KeyedById(st: Store)
  {
    forall u :: u in st.nodes ==> st.nodes[u].id == u
  }

  /** A well-formed road graph: a simple undirected graph in which the link
      table and the neighbour lists describe the same edges. */
  ghost predicate Wf(st: Store)
  {
    IndexInvariant(st) && SlotsLinked(st) && Symmetric(st) && Loopless(st) && KeyedById(st)
  }

  ghost predicate Distinct<T>(xs: seq<T>)
  {
    forall i, j :: 0 <= i < j < |xs| ==> xs[i] != xs[j]
  }

  /** A walk of a table: every key once, in some order. */
  ghost predicate IsEnumeration<T(!new)>(order: seq<T>, keys: set<T>)
  {
    Distinct(order) && forall u :: u in order <==> u in keys
  }

  /** Every neighbour named in a list is a node of the graph. */
  ghost predicate NeighboursExist(st: Store)
  {
    forall u, i :: u in st.nodes && 0 <= i < |st.nodes[u].neighbours| ==> st.nodes[u].neighbours[i] in st.nodes
  }

  /** The set of link keys that do not mention `x`. */
  function LinksAvoiding(keys: set<Link>, x: Id): set<Link>
  {
    set l | l in keys && l.0 != x && l.1 != x
  }

  // ---------------------------------------------------------------------
  // Lemmas on single operations

  lemma InsertNodeKeepsIndex(st: Store, node: Node)
    requires IndexInvariant(st)
    ensures IndexInvariant(WithNode(st, node))
  {
  }

  lemma InsertNodeKeepsWf(st: Store, node: Node)
    requires Wf(st) && node.id !in st.nodes && node.neighbours == []
    ensures Wf(WithNode(st, node))
  {
  }

  lemma InsertLinkKeepsIndex(st: Store, s: Id, t: Id)
    requires IndexInvariant(st) && s in st.nodes
    ensures IndexInvariant(WithLink(st, s, t))
  {
    var r := WithLink(st, s, t);
    forall l | l in r.links
      ensures l.0 in r.nodes && r.links[l] < |r.nodes[l.0].neighbours| && r.nodes[l.0].neighbours[r.links[l]] == l.1
    {
      if l != (s, t) {
        assert l in st.links;
      }
    }
  }

  lemma RemoveLinkKeepsIndex(st: Store, s: Id, t: Id)
    requires IndexInvariant(st) && (s, t) in st.links
    ensures LinkRemovable(st, s, t) && IndexInvariant(WithoutLink(st, s, t))
  {
    var k := st.links[(s, t)];
    var ns := st.nodes[s].neighbours;
    var last := |ns| - 1;
    var r := WithoutLink(st, s, t);
    forall l | l in r.links
      ensures l.0 in r.nodes && r.links[l] < |r.nodes[l.0].neighbours| && r.nodes[l.0].neighbours[r.links[l]] == l.1
    {
      if k != last && l == (s, ns[last]) {
      } else {
        assert l in st.links && l != (s, t);
        var j := st.links[l];
        if l.0 == s {
          assert ns[j] == l.1;
          assert j != k;
        }
      }
    }
  }

  /** `remove_link` changes only entries whose source is `s`; the one
      entry it rewrites is the moved neighbour's, re-pointed to `k`. */
  lemma RemoveLinkFrame(st: Store, s: Id, t: Id)
    requires LinkRemovable(st, s, t)
    ensures var r := WithoutLink(st, s, t);
      var k := st.links[(s, t)];
      var ns := st.nodes[s].neighbours;
      && ((s, t) !in r.links || (k < |ns| - 1 && ns[|ns| - 1] == t))
      && r.nodes.Keys == st.nodes.Keys
      && r.nodes[s].neighbours == SwapRemove(ns, k)
      && (forall u :: u in st.nodes && u != s ==> r.nodes[u] == st.nodes[u])
      && (forall l :: l in st.links && l != (s, t) && l.0 != s ==> l in r.links && r.links[l] == st.links[l])
      && (forall l :: l in r.links && l != (s, ns[|ns| - 1]) ==> l in st.links && r.links[l] == st.links[l])
      && (k < |ns| - 1 ==> (s, ns[|ns| - 1]) in r.links && r.links[(s, ns[|ns| - 1])] == k)
  {
  }

  /** Removing the last slot rewrites no other entry. */
  lemma RemoveLastSlot(st: Store, s: Id, t: Id)
    requires LinkRemovable(st, s, t) && st.links[(s, t)] == |st.nodes[s].neighbours| - 1
    ensures WithoutLink(st, s, t).links == st.links - {(s, t)}
  {
  }

  lemma SlotsDistinct(st: Store, u: Id)
    requires SlotsLinked(st) && u in st.nodes
    ensures Distinct(st.nodes[u].neighbours)
  {
    var ns := st.nodes[u].neighbours;
    forall i, j | 0 <= i < j < |ns| ensures ns[i] != ns[j] {
      assert st.links[(u, ns[i])] == i && st.links[(u, ns[j])] == j;
    }
  }

  lemma RemoveLinkSlotsPart(st: Store, s: Id, t: Id)
    requires IndexInvariant(st) && SlotsLinked(st) && LinkRemovable(st, s, t)
    ensures SlotsLinked(WithoutLink(st, s, t))
  {
    RemoveLinkFrame(st, s, t);
    SlotsDistinct(st, s);
    var k := st.links[(s, t)];
    var ns := st.nodes[s].neighbours;
    var last := |ns| - 1;
    var r := WithoutLink(st, s, t);
    var ns' := r.nodes[s].neighbours;
    assert ns[k] == t;
    forall u, i | u in r.nodes && 0 <= i < |r.nodes[u].neighbours|
      ensures (u, r.nodes[u].neighbours[i]) in r.links && r.links[(u, r.nodes[u].neighbours[i])] == i
    {
      if u == s {
        if i != k {
          assert ns'[i] == ns[i];
          assert st.links[(s, ns[i])] == i;
          assert ns[i] != t;
          assert ns[i] != ns[last];
        }
      } else {
        assert st.links[(u, st.nodes[u].neighbours[i])] == i;
      }
    }
  }

  lemma RemoveLinkKeysPart(st: Store, s: Id, t: Id)
    requires IndexInvariant(st) && SlotsLinked(st) && LinkRemovable(st, s, t)
    ensures WithoutLink(st, s, t).links.Keys == st.links.Keys - {(s, t)}
  {
    SlotsDistinct(st, s);
    var k := st.links[(s, t)];
    var ns := st.nodes[s].neighbours;
    var last := |ns| - 1;
    assert ns[k] == t;
    if k != last {
      assert st.links[(s, ns[last])] == last;
      assert ns[last] != t;
    }
  }

  lemma RemoveLinkElemsPart(st: Store, s: Id, t: Id)
    requires IndexInvariant(st) && SlotsLinked(st) && LinkRemovable(st, s, t)
    ensures Elems(WithoutLink(st, s, t).nodes[s].neighbours) == Elems(st.nodes[s].neighbours) - {t}
  {
    SlotsDistinct(st, s);
    var k := st.links[(s, t)];
    var ns := st.nodes[s].neighbours;
    var last := |ns| - 1;
    var ns' := SwapRemove(ns, k);
    assert ns[k] == t;
    forall x ensures x in ns' <==> x in ns && x != t {
      if x in ns' {
        var i :| 0 <= i < |ns'| && ns'[i] == x;
        if i == k { assert x == ns[last]; } else { assert x == ns[i]; }
      }
      if x in ns && x != t {
        var i :| 0 <= i < |ns| && ns[i] == x;
        if i == last { assert ns'[k] == x; } else { assert ns'[i] == x; }
      }
    }
  }

  /** In a graph whose slots are all linked, `remove_link` removes exactly
      its own entry and keeps both invariants. */
  lemma RemoveLinkKeepsSlots(st: Store, s: Id, t: Id)
    requires IndexInvariant(st) && SlotsLinked(st) && (s, t) in st.links
    ensures LinkRemovable(st, s, t)
    ensures var r := WithoutLink(st, s, t);
      && IndexInvariant(r) && SlotsLinked(r)
      && r.links.Keys == st.links.Keys - {(s, t)}
      && r.nodes.Keys == st.nodes.Keys
      && (forall u :: u in st.nodes ==> r.nodes[u].id == st.nodes[u].id)
  {
    RemoveLinkKeepsIndex(st, s, t);
    RemoveLinkSlotsPart(st, s, t);
    RemoveLinkKeysPart(st, s, t);
  }

  /** In a graph whose slots are all linked, `remove_link` takes the target
      out of the source's list and leaves every other node alone. */
  lemma RemoveLinkLists(st: Store, s: Id, t: Id)
    requires IndexInvariant(st) && SlotsLinked(st) && (s, t) in st.links
    ensures LinkRemovable(st, s, t)
    ensures var r := WithoutLink(st, s, t);
      && Elems(r.nodes[s].neighbours) == Elems(st.nodes[s].neighbours) - {t}
      && |r.nodes[s].neighbours| == |st.nodes[s].neighbours| - 1
      && r.nodes[s] == st.nodes[s].(neighbours := r.nodes[s].neighbours)
      && (forall u :: u in st.nodes && u != s ==> r.nodes[u] == st.nodes[u])
  {
    RemoveLinkElemsPart(st, s, t);
  }

  /** The unlinking step of `remove_node` on a well-formed graph keeps it
      well-formed and removes exactly the two directions of one edge. */
  lemma UnlinkPairWf(st: Store, a: Id, b: Id)
    requires Wf(st) && (a, b) in st.links
    ensures PairRemovable(st, a, b)
    ensures var r := Unlink(st, a, b);
      && Wf(r)
      && r.links.Keys == st.links.Keys - {(a, b), (b, a)}
      && r.nodes.Keys == st.nodes.Keys
      && (forall u :: u in st.nodes ==> r.nodes[u].id == st.nodes[u].id)
  {
    RemoveLinkKeepsSlots(st, a, b);
    var r1 := WithoutLink(st, a, b);
    assert (b, a) in r1.links;
    RemoveLinkKeepsSlots(r1, b, a);
    var r := WithoutLink(r1, b, a);
    SymmetricShrink(st, r, a, b);
  }

  /** Dropping both directions of one edge, and changing only neighbour
      lists, keeps links symmetric and loop-free and nodes keyed by id. */
  lemma SymmetricShrink(st: Store, r: Store, a: Id, b: Id)
    requires Symmetric(st) && Loopless(st) && KeyedById(st)
    requires r.links.Keys == st.links.Keys - {(a, b), (b, a)}
    requires r.nodes.Keys == st.nodes.Keys
    requires forall u :: u in st.nodes ==> r.nodes[u].id == st.nodes[u].id
    ensures Symmetric(r) && Loopless(r) && KeyedById(r)
  {
    forall l | l in r.links ensures (l.1, l.0) in r.links {
      assert l in st.links;
    }
  }

  /** The unlinking step of `remove_node`: each endpoint loses the other
      from its list, and no other node changes. */
  lemma UnlinkPairLists(st: Store, a: Id, b: Id)
    requires Wf(st) && (a, b) in st.links
    ensures PairRemovable(st, a, b)
    ensures var r := Unlink(st, a, b);
      && Elems(r.nodes[a].neighbours) == Elems(st.nodes[a].neighbours) - {b}
      && |r.nodes[a].neighbours| == |st.nodes[a].neighbours| - 1
      && Elems(r.nodes[b].neighbours) == Elems(st.nodes[b].neighbours) - {a}
      && |r.nodes[b].neighbours| == |st.nodes[b].neighbours| - 1
      && (forall u :: u in st.nodes ==> r.nodes[u] == st.nodes[u].(neighbours := r.nodes[u].neighbours))
      && (forall u :: u in st.nodes && u != a && u != b ==> r.nodes[u] == st.nodes[u])
  {
    RemoveLinkKeepsSlots(st, a, b);
    RemoveLinkLists(st, a, b);
    var r1 := WithoutLink(st, a, b);
    assert (b, a) in r1.links;
    RemoveLinkLists(r1, b, a);
  }

  lemma InsertLinkKeepsSlots(st: Store, s: Id, t: Id)
    requires SlotsLinked(st) && s in st.nodes && (s, t) !in st.links
    ensures SlotsLinked(WithLink(st, s, t))
  {
    var r := WithLink(st, s, t);
    forall u, i | u in r.nodes && 0 <= i < |r.nodes[u].neighbours|
      ensures (u, r.nodes[u].neighbours[i]) in r.links && r.links[(u, r.nodes[u].neighbours[i])] == i
    {
      if u != s || i != |st.nodes[s].neighbours| {
        var v := st.nodes[u].neighbours[i];
        assert r.nodes[u].neighbours[i] == v;
        assert (u, v) in st.links && st.links[(u, v)] == i;
      }
    }
  }

  /** Adding both directions of a new edge between distinct nodes, and
      changing only neighbour lists, keeps links symmetric and loop-free
      and nodes keyed by id. */
  lemma SymmetricGrow(st: Store, r: Store, a: Id, b: Id)
    requires Symmetric(st) && Loopless(st) && KeyedById(st) && a != b
    requires r.links.Keys == st.links.Keys + {(a, b), (b, a)}
    requires r.nodes.Keys == st.nodes.Keys
    requires forall u :: u in st.nodes ==> r.nodes[u].id == st.nodes[u].id
    ensures Symmetric(r) && Loopless(r) && KeyedById(r)
  {
    forall l | l in r.links ensures (l.1, l.0) in r.links {
      if l != (a, b) && l != (b, a) {
        assert l in st.links;
      }
    }
  }

  /** The linking step of the heuristics on a well-formed graph: a new edge
      between two distinct nodes keeps the graph well-formed. */
  lemma LinkPairWf(st: Store, a: Id, b: Id)
    requires Wf(st) && a in st.nodes && b in st.nodes && a != b && (a, b) !in st.links
    ensures var r := WithLink(WithLink(st, a, b), b, a);
      && Wf(r)
      && r.links.Keys == st.links.Keys + {(a, b), (b, a)}
      && r.nodes.Keys == st.nodes.Keys
      && (forall u :: u in st.nodes ==> r.nodes[u].id == st.nodes[u].id)
  {
    var r1 := WithLink(st, a, b);
    var r := WithLink(r1, b, a);
    assert (b, a) !in st.links;
    InsertLinkKeepsIndex(st, a, b);
    InsertLinkKeepsIndex(r1, b, a);
    InsertLinkKeepsSlots(st, a, b);
    InsertLinkKeepsSlots(r1, b, a);
    SymmetricGrow(st, r, a, b);
  }

  /** The linking step of the heuristics: both lists get the other end
      pushed, and no other node and no existing entry changes. */
  lemma LinkPairLists(st: Store, a: Id, b: Id)
    requires a in st.nodes && b in st.nodes && a != b && (a, b) !in st.links && (b, a) !in st.links
    ensures var r := WithLink(WithLink(st, a, b), b, a);
      && r.nodes[a].neighbours == st.nodes[a].neighbours + [b]
      && r.nodes[b].neighbours == st.nodes[b].neighbours + [a]
      && (forall u :: u in st.nodes ==> r.nodes[u] == st.nodes[u].(neighbours := r.nodes[u].neighbours))
      && (forall u :: u in st.nodes && u != a && u != b ==> r.nodes[u] == st.nodes[u])
      && (forall l :: l in st.links ==> l in r.links && r.links[l] == st.links[l])
  {
  }

  lemma ElemsTail(ns: seq<Id>)
    requires Distinct(ns) && |ns| > 0
    ensures Elems(ns[1..]) == Elems(ns) - {ns[0]}
  {
    forall y ensures y in Elems(ns[1..]) <==> y in Elems(ns) && y != ns[0] {
      if y in Elems(ns[1..]) {
        var j :| 0 <= j < |ns[1..]| && ns[1..][j] == y;
        assert ns[j + 1] == y;
      }
      if y in Elems(ns) && y != ns[0] {
        var j :| 0 <= j < |ns| && ns[j] == y;
        assert ns[1..][j - 1] == y;
      }
    }
  }

  lemma NeighbourLinked(st: Store, u: Id, v: Id)
    requires SlotsLinked(st) && u in st.nodes && v in Elems(st.nodes[u].neighbours)
    ensures (u, v) in st.links
  {
    var i :| 0 <= i < |st.nodes[u].neighbours| && st.nodes[u].neighbours[i] == v;
  }

  /** Every neighbour of a node of a well-formed graph is a node, and none
      is the node itself. */
  lemma NeighboursPresent(st: Store, x: Id)
    requires Wf(st) && x in st.nodes
    ensures Elems(st.nodes[x].neighbours) <= st.nodes.Keys
    ensures x !in st.nodes[x].neighbours
  {
    forall v | v in Elems(st.nodes[x].neighbours) ensures v in st.nodes && v != x {
      NeighbourLinked(st, x, v);
      assert (v, x) in st.links;
    }
  }

  /** In a well-formed graph the neighbour lists and the link table agree. */
  lemma ListedIffLinked(st: Store, u: Id, v: Id)
    requires IndexInvariant(st) && SlotsLinked(st) && u in st.nodes
    ensures v in st.nodes[u].neighbours <==> (u, v) in st.links
  {
    if v in st.nodes[u].neighbours {
      NeighbourLinked(st, u, v);
    }
  }

  lemma ElemsEmpty(xs: seq<Id>)
    ensures Elems(xs) == {} <==> xs == []
  {
    if |xs| > 0 {
      assert xs[0] in Elems(xs);
    }
  }

  /** In a well-formed graph, a node with no neighbours is mentioned by no link. */
  lemma IsolatedUnlinked(st: Store, x: Id)
    requires Wf(st) && x in st.nodes && st.nodes[x].neighbours == []
    ensures LinksAvoiding(st.links.Keys, x) == st.links.Keys
    ensures forall u :: u in st.nodes ==> x !in st.nodes[u].neighbours
  {
    forall l | l in st.links ensures l.0 != x && l.1 != x {
      assert st.links[l] < |st.nodes[l.0].neighbours|;
      assert (l.1, l.0) in st.links;
      assert st.links[(l.1, l.0)] < |st.nodes[l.1].neighbours|;
    }
    forall u, i | u in st.nodes && 0 <= i < |st.nodes[u].neighbours|
      ensures st.nodes[u].neighbours[i] != x
    {
      var v := st.nodes[u].neighbours[i];
      assert (u, v) in st.links;
      assert (v, u) in st.links;
      assert st.links[(v, u)] < |st.nodes[v].neighbours|;
    }
  }

  /** In a well-formed graph, `x` is in the list of `u` exactly when `u` is
      in the list of `x`. */
  lemma NeighbourSymmetric(st: Store, x: Id, u: Id)
    requires Wf(st) && x in st.nodes && u in st.nodes
    ensures x in st.nodes[u].neighbours <==> u in st.nodes[x].neighbours
  {
    if x in st.nodes[u].neighbours {
      var i :| 0 <= i < |st.nodes[u].neighbours| && st.nodes[u].neighbours[i] == x;
      assert (u, x) in st.links && (x, u) in st.links;
      assert st.nodes[x].neighbours[st.links[(x, u)]] == u;
    }
    if u in st.nodes[x].neighbours {
      var i :| 0 <= i < |st.nodes[x].neighbours| && st.nodes[x].neighbours[i] == u;
      assert (x, u) in st.links && (u, x) in st.links;
      assert st.nodes[u].neighbours[st.links[(u, x)]] == x;
    }
  }

  lemma AvoidingMinus(keys: set<Link>, x: Id, n: Id)
    ensures LinksAvoiding(keys - {(x, n), (n, x)}, x) == LinksAvoiding(keys, x)
  {
  }

  /** One turn of the loop of `remove_node` on a well-formed graph leaves
      the loop's own precondition in place for the rest of the list. */
  lemma DetachStep(st: Store, x: Id, ns: seq<Id>)
    requires Wf(st) && x in st.nodes && Distinct(ns) && |ns| > 0 && Elems(ns) == Elems(st.nodes[x].neighbours)
    ensures PairRemovable(st, x, ns[0])
    ensures var st1 := Unlink(st, x, ns[0]);
      && Wf(st1) && x in st1.nodes && Distinct(ns[1..]) && Elems(ns[1..]) == Elems(st1.nodes[x].neighbours)
      && st1.links.Keys == st.links.Keys - {(x, ns[0]), (ns[0], x)}
      && st1.nodes.Keys == st.nodes.Keys
      && (forall u :: u in st.nodes ==> st1.nodes[u].id == st.nodes[u].id)
  {
    NeighbourLinked(st, x, ns[0]);
    UnlinkPairWf(st, x, ns[0]);
    UnlinkPairLists(st, x, ns[0]);
    ElemsTail(ns);
  }

  /** The loop of `remove_node` on a well-formed graph, over a duplicate-free
      list naming exactly the remaining neighbours of `x`, keeps the graph
      well-formed and drops every link that mentions `x`. */
  lemma {:induction false} DetachAllWf(st: Store, x: Id, ns: seq<Id>)
    requires Wf(st) && x in st.nodes && Distinct(ns) && Elems(ns) == Elems(st.nodes[x].neighbours)
    ensures Detachable(st, x, ns)
    ensures var r := DetachAll(st, x, ns);
      && Wf(r)
      && r.nodes.Keys == st.nodes.Keys
      && r.nodes[x].neighbours == []
      && r.links.Keys == LinksAvoiding(st.links.Keys, x)
      && (forall u :: u in st.nodes ==> r.nodes[u].id == st.nodes[u].id)
    decreases |ns|
  {
    if |ns| == 0 {
      ElemsEmpty(st.nodes[x].neighbours);
      IsolatedUnlinked(st, x);
    } else {
      var n := ns[0];
      DetachStep(st, x, ns);
      var st1 := Unlink(st, x, n);
      DetachAllWf(st1, x, ns[1..]);
      AvoidingMinus(st.links.Keys, x, n);
    }
  }

  /** The loop of `remove_node` changes neighbour lists only. */
  lemma {:induction false} DetachAllKeepsRecords(st: Store, x: Id, ns: seq<Id>)
    requires Wf(st) && x in st.nodes && Distinct(ns) && Elems(ns) == Elems(st.nodes[x].neighbours)
    ensures Detachable(st, x, ns)
    ensures var r := DetachAll(st, x, ns);
      && r.nodes.Keys == st.nodes.Keys
      && (forall u :: u in st.nodes ==> r.nodes[u] == st.nodes[u].(neighbours := r.nodes[u].neighbours))
    decreases |ns|
  {
    if |ns| > 0 {
      DetachStep(st, x, ns);
      NeighbourLinked(st, x, ns[0]);
      UnlinkPairLists(st, x, ns[0]);
      DetachAllKeepsRecords(Unlink(st, x, ns[0]), x, ns[1..]);
    }
  }

  /** The loop of `remove_node` on a well-formed graph: every other node
      loses `x` from its list. */
  lemma {:induction false} DetachAllElems(st: Store, x: Id, ns: seq<Id>)
    requires Wf(st) && x in st.nodes && Distinct(ns) && Elems(ns) == Elems(st.nodes[x].neighbours)
    ensures Detachable(st, x, ns)
    ensures var r := DetachAll(st, x, ns);
      && r.nodes.Keys == st.nodes.Keys
      && (forall u :: u in st.nodes && u != x ==> Elems(r.nodes[u].neighbours) == Elems(st.nodes[u].neighbours) - {x})
    decreases |ns|
  {
    if |ns| == 0 {
      ElemsEmpty(st.nodes[x].neighbours);
      IsolatedUnlinked(st, x);
    } else {
      var n := ns[0];
      DetachStep(st, x, ns);
      NeighbourLinked(st, x, n);
      UnlinkPairLists(st, x, n);
      DetachAllElems(Unlink(st, x, n), x, ns[1..]);
    }
  }

  /** The loop of `remove_node` on a well-formed graph: every other node's
      list is one shorter exactly when it held `x`. */
  lemma {:induction false} DetachAllLengths(st: Store, x: Id, ns: seq<Id>)
    requires Wf(st) && x in st.nodes && Distinct(ns) && Elems(ns) == Elems(st.nodes[x].neighbours)
    ensures Detachable(st, x, ns)
    ensures var r := DetachAll(st, x, ns);
      && r.nodes.Keys == st.nodes.Keys
      && (forall u :: u in st.nodes && u != x ==>
            |r.nodes[u].neighbours| == |st.nodes[u].neighbours| - (if x in st.nodes[u].neighbours then 1 else 0))
    decreases |ns|
  {
    if |ns| == 0 {
      ElemsEmpty(st.nodes[x].neighbours);
      IsolatedUnlinked(st, x);
    } else {
      var n := ns[0];
      DetachStep(st, x, ns);
      NeighbourLinked(st, x, n);
      UnlinkPairLists(st, x, n);
      var st1 := Unlink(st, x, n);
      DetachAllLengths(st1, x, ns[1..]);
      NeighbourSymmetric(st, x, n);
      SlotsDistinct(st1, n);
      assert x !in Elems(st1.nodes[n].neighbours);
    }
  }

  /** `remove_node` on a well-formed graph: the node goes, every link that
      mentions it goes, and the graph stays well-formed. */
  lemma RemoveNodeWf(st: Store, x: Id)
    requires Wf(st) && x in st.nodes
    ensures NodeRemovable(st, x)
    ensures var r := WithoutNode(st, x);
      && Wf(r)
      && r.nodes.Keys == st.nodes.Keys - {x}
      && r.links.Keys == LinksAvoiding(st.links.Keys, x)
  {
    SlotsDistinct(st, x);
    DetachAllWf(st, x, st.nodes[x].neighbours);
  }

  /** `remove_node` on a well-formed graph: every remaining node loses `x`
      from its list, and keeps its id and coordinates. */
  lemma RemoveNodeLists(st: Store, x: Id)
    requires Wf(st) && x in st.nodes
    ensures NodeRemovable(st, x)
    ensures var r := WithoutNode(st, x);
      && r.nodes.Keys == st.nodes.Keys - {x}
      && (forall u :: u in r.nodes ==> r.nodes[u] == st.nodes[u].(neighbours := r.nodes[u].neighbours))
      && (forall u :: u in r.nodes ==> Elems(r.nodes[u].neighbours) == Elems(st.nodes[u].neighbours) - {x})
      && (forall u :: u in r.nodes ==>
            |r.nodes[u].neighbours| == |st.nodes[u].neighbours| - (if x in st.nodes[u].neighbours then 1 else 0))
  {
    SlotsDistinct(st, x);
    DetachAllKeepsRecords(st, x, st.nodes[x].neighbours);
    DetachAllElems(st, x, st.nodes[x].neighbours);
    DetachAllLengths(st, x, st.nodes[x].neighbours);
  }

  lemma {:induction false} DetachAllKeys(st: Store, x: Id, ns: seq<Id>)
    requires Detachable(st, x, ns)
    ensures DetachAll(st, x, ns).nodes.Keys == st.nodes.Keys
    decreases |ns|
  {
    if |ns| > 0 {
      DetachAllKeys(Unlink(st, x, ns[0]), x, ns[1..]);
    }
  }

  /** Whenever `remove_node` does not abort, it drops exactly the one node. */
  lemma RemoveNodeKeys(st: Store, x: Id)
    requires NodeRemovable(st, x)
    ensures WithoutNode(st, x).nodes.Keys == st.nodes.Keys - {x}
  {
    DetachAllKeys(st, x, st.nodes[x].neighbours);
  }

  /** A node without neighbours is dropped and the link table is untouched. */
  lemma RemoveIsolatedNode(st: Store, x: Id)
    requires x in st.nodes && st.nodes[x].neighbours == []
    ensures NodeRemovable(st, x)
    ensures WithoutNode(st, x) == Store(st.nodes - {x}, st.links)
  {
  }

  /** Removing an absent node would abort: `remove_node` looks it up first. */
  lemma RemoveAbsentNode(st: Store, x: Id)
    requires x !in st.nodes
    ensures !NodeRemovable(st, x)
  {
  }
}
