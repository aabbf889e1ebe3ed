/** Link contraction (`replace_link_by_node`, src/heuristics.rs) as a
    function on the graph value, with the id scheme of contracted nodes. */
module Contraction {
  import opened Wrappers
  import opened Strings
  import opened Utils
  import opened Geo
  import opened Stores

  const Dash: char := '-'

  /** The id of the node replacing a link: the two ids in
      `deterministic_link` order, joined by a dash. */
  function ContractedId(a: Id, b: Id): (id: Id)
    ensures |id| == |a| + |b| + 1
  {
    var d := DeterministicLink(a, b);
    assert multiset{|d.0|, |d.1|} == multiset{|a|, |b|} by {
      assert d == (a, b) || d == (b, a);
    }
    d.0 + [Dash] + d.1
  }

  /** The original ids a node stands for: the dash-separated pieces of its id. */
  function Pieces(id: Id): set<string>
  {
    Elems(Split(id, Dash))
  }

  /** Both directions of a link between `id` and each of `ns`. */
  function Spokes(id: Id, ns: seq<Id>): set<Link>
    decreases |ns|
  {
    if |ns| == 0 then {} else {(id, ns[0]), (ns[0], id)} + Spokes(id, ns[1..])
  }

  /** The final loop of `replace_link_by_node`: link the new node and each
      neighbour both ways. */
  function Attach(st: Store, id: Id, ns: seq<Id>): Option<Store>
    decreases |ns|
  {
    if |ns| == 0 then Some(st)
    else if id !in st.nodes || ns[0] !in st.nodes then None
    else Attach(WithLink(WithLink(st, id, ns[0]), ns[0], id), id, ns[1..])
  }

  /** The contracted node as `replace_link_by_node` inserts it: no
      neighbours yet, at the midpoint of the two end nodes. */
  function NewNode(geo: Geometry, sn: Node, tn: Node): Node
  {
    var m := geo.mid(CoordinateOf(sn), CoordinateOf(tn));
    Node(ContractedId(sn.id, tn.id), m.0, m.1, [])
  }

  /** `replace_link_by_node` up to its final loop: both end nodes removed
      by their ids and the contracted node inserted; the result also holds
      the contracted id and the merged neighbour list (the two lists
      concatenated, sorted, without repeats, without the two end ids). */
  function Prepare(st: Store, geo: Geometry, s: Id, t: Id): Option<(Store, Id, seq<Id>)>
  {
    if s !in st.nodes || t !in st.nodes then None
    else
      var sn := st.nodes[s];
      var tn := st.nodes[t];
      if !NodeRemovable(st, sn.id) then None
      else
        var st1 := WithoutNode(st, sn.id);
        if !NodeRemovable(st1, tn.id) then None
        else
          var st2 := WithoutNode(st1, tn.id);
          var ns := Normalized(sn.neighbours + tn.neighbours, sn.id, tn.id);
          Some((WithNode(st2, NewNode(geo, sn, tn)), ContractedId(sn.id, tn.id), ns))
  }

  /** `replace_link_by_node` for the link `(s, t)`. */
  function Contract(st: Store, geo: Geometry, s: Id, t: Id): Option<Store>
  {
    var p :- Prepare(st, geo, s, t);
    Attach(p.0, p.1, p.2)
  }

  /** The neighbour list the contracted node receives. */
  function MergedNeighbours(st: Store, s: Id, t: Id): seq<Id>
    requires s in st.nodes && t in st.nodes
  {
    Normalized(st.nodes[s].neighbours + st.nodes[t].neighbours, s, t)
  }

  /** Ids whose pieces never overlap: no original id is shared; the
      numeric ids of a freshly loaded graph are of this kind. */
  ghost predicate PiecesDisjoint(keys: set<Id>)
  {
    forall u, v :: u in keys && v in keys && u != v ==> Pieces(u) * Pieces(v) == {}
  }

  // ---------------------------------------------------------------------
  // Ids

  /** The contracted id stands for the original ids of both end nodes. */
  lemma ContractedPieces(a: Id, b: Id)
    ensures Pieces(ContractedId(a, b)) == Pieces(a) + Pieces(b)
  {
    var d := DeterministicLink(a, b);
    SplitGlue(d.0, d.1, Dash);
    assert d == (a, b) || d == (b, a);
    forall x ensures x in Split(d.0, Dash) + Split(d.1, Dash) <==> x in Split(d.0, Dash) || x in Split(d.1, Dash) {
    }
  }

  /** The contracted id is the same whichever end the link starts at. */
  lemma ContractedIdSymmetric(a: Id, b: Id)
    ensures ContractedId(a, b) == ContractedId(b, a)
  {
    DeterministicLinkSymmetric(a, b);
  }

  lemma PiecesNonEmpty(id: Id)
    ensures Pieces(id) != {}
  {
    assert Split(id, Dash)[0] in Pieces(id);
  }

  /** The contracted id of the link between 92192237 and 3761637489: the
      smaller id first, whichever end the link starts at. */
  lemma ContractedIdExample()
    ensures ContractedId("92192237", "3761637489") == "3761637489-92192237"
    ensures ContractedId("3761637489", "92192237") == "3761637489-92192237"
  {
    assert Less("3761637489", "92192237");
    ContractedIdSymmetric("92192237", "3761637489");
  }

  /** When ids never share pieces, the contracted id of two of them is new,
      and the ids after the contraction still never share pieces. */
  lemma ContractedIdFresh(keys: set<Id>, s: Id, t: Id)
    requires PiecesDisjoint(keys) && s in keys && t in keys && s != t
    ensures ContractedId(s, t) !in keys
    ensures PiecesDisjoint(keys - {s, t} + {ContractedId(s, t)})
  {
    var id := ContractedId(s, t);
    ContractedPieces(s, t);
    PiecesNonEmpty(s);
    forall w | w in keys - {s, t} ensures Pieces(w) * Pieces(id) == {} && w != id {
      assert Pieces(w) * Pieces(s) == {} && Pieces(w) * Pieces(t) == {};
      assert Pieces(s) * Pieces(id) == Pieces(s);
      assert Pieces(w) != Pieces(id);
    }
    assert id != s && id != t;
  }

  // ---------------------------------------------------------------------
  // The attaching loop

  lemma {:induction false} SpokesSpec(id: Id, ns: seq<Id>, l: Link)
    ensures l in Spokes(id, ns) <==> (l.0 == id && l.1 in ns) || (l.1 == id && l.0 in ns)
    decreases |ns|
  {
    if |ns| > 0 {
      SpokesSpec(id, ns[1..], l);
      assert forall v :: v in ns <==> v == ns[0] || v in ns[1..];
    }
  }

  /** Whenever the loop succeeds, the node set is unchanged and exactly the
      spokes are added to the link table. */
  lemma {:induction false} AttachKeys(st: Store, id: Id, ns: seq<Id>)
    requires Attach(st, id, ns).Some?
    ensures Attach(st, id, ns).value.nodes.Keys == st.nodes.Keys
    ensures Attach(st, id, ns).value.links.Keys == st.links.Keys + Spokes(id, ns)
    decreases |ns|
  {
    if |ns| > 0 {
      AttachKeys(WithLink(WithLink(st, id, ns[0]), ns[0], id), id, ns[1..]);
    }
  }

  /** What the contraction establishes before linking: a node `id` that
      neither occurs in `ns` nor has a link to any of them. */
  ghost predicate Attachable(st: Store, id: Id, ns: seq<Id>)
  {
    && id in st.nodes && id !in ns && Distinct(ns) && Elems(ns) <= st.nodes.Keys
    && (forall v :: v in ns ==> (id, v) !in st.links && (v, id) !in st.links)
  }

  lemma AttachStep(st: Store, id: Id, ns: seq<Id>)
    requires Attachable(st, id, ns) && |ns| > 0
    ensures ns[0] in st.nodes
    ensures Attachable(WithLink(WithLink(st, id, ns[0]), ns[0], id), id, ns[1..])
  {
    assert ns[0] in Elems(ns);
    ElemsTail(ns);
  }

  lemma {:induction false} AttachSome(st: Store, id: Id, ns: seq<Id>)
    requires Attachable(st, id, ns)
    ensures Attach(st, id, ns).Some?
    decreases |ns|
  {
    if |ns| > 0 {
      AttachStep(st, id, ns);
      AttachSome(WithLink(WithLink(st, id, ns[0]), ns[0], id), id, ns[1..]);
    }
  }

  lemma {:induction false} AttachWf(st: Store, id: Id, ns: seq<Id>)
    requires Wf(st) && Attachable(st, id, ns)
    ensures Attach(st, id, ns).Some?
    ensures Wf(Attach(st, id, ns).value)
    decreases |ns|
  {
    if |ns| > 0 {
      AttachStep(st, id, ns);
      LinkPairWf(st, id, ns[0]);
      AttachWf(WithLink(WithLink(st, id, ns[0]), ns[0], id), id, ns[1..]);
    }
  }

  /** The loop appends `ns` to the list of `id`. */
  lemma {:induction false} AttachList(st: Store, id: Id, ns: seq<Id>)
    requires Attachable(st, id, ns)
    ensures Attach(st, id, ns).Some?
    ensures var r := Attach(st, id, ns).value;
      id in r.nodes && r.nodes[id] == st.nodes[id].(neighbours := st.nodes[id].neighbours + ns)
    decreases |ns|
  {
    if |ns| > 0 {
      AttachStep(st, id, ns);
      LinkPairLists(st, id, ns[0]);
      var st1 := WithLink(WithLink(st, id, ns[0]), ns[0], id);
      AttachList(st1, id, ns[1..]);
      assert st.nodes[id].neighbours + [ns[0]] + ns[1..] == st.nodes[id].neighbours + ns;
    }
  }

  /** The loop appends `id` to the list of each of `ns`; nothing else
      changes in any other node. */
  lemma {:induction false} AttachOthers(st: Store, id: Id, ns: seq<Id>)
    requires Attachable(st, id, ns)
    ensures Attach(st, id, ns).Some?
    ensures var r := Attach(st, id, ns).value;
      forall u :: u in st.nodes && u != id ==>
        u in r.nodes && r.nodes[u] == st.nodes[u].(neighbours := st.nodes[u].neighbours + (if u in ns then [id] else []))
    decreases |ns|
  {
    if |ns| > 0 {
      AttachStep(st, id, ns);
      LinkPairLists(st, id, ns[0]);
      var st1 := WithLink(WithLink(st, id, ns[0]), ns[0], id);
      AttachOthers(st1, id, ns[1..]);
      forall u | u in st.nodes && u != id
        ensures u in ns <==> u == ns[0] || u in ns[1..]
      {
      }
    }
  }

  // ---------------------------------------------------------------------
  // `replace_link_by_node`

  /** Whenever the contraction succeeds it removes both end nodes and adds
      the contracted one, so it shrinks the graph by at least one node. */
  lemma ContractShrinks(st: Store, geo: Geometry, s: Id, t: Id)
    requires Contract(st, geo, s, t).Some?
    ensures |Contract(st, geo, s, t).value.nodes| < |st.nodes|
  {
    var p := Prepare(st, geo, s, t).value;
    PrepareShrinks(st, geo, s, t);
    AttachKeys(p.0, p.1, p.2);
  }

  lemma PrepareShrinks(st: Store, geo: Geometry, s: Id, t: Id)
    requires Prepare(st, geo, s, t).Some?
    ensures |Prepare(st, geo, s, t).value.0.nodes| < |st.nodes|
  {
    var sn := st.nodes[s];
    var tn := st.nodes[t];
    RemoveNodeKeys(st, sn.id);
    var st1 := WithoutNode(st, sn.id);
    RemoveNodeKeys(st1, tn.id);
    ReplaceTwoByOne(st.nodes.Keys, sn.id, tn.id, sn.id);
  }

  /** `remove_node` of both ends of a well-formed graph. */
  function RemoveEnds(st: Store, s: Id, t: Id): Store
    requires NodeRemovable(st, s) && NodeRemovable(WithoutNode(st, s), t)
  {
    WithoutNode(WithoutNode(st, s), t)
  }

  lemma RemoveEndsWf(st: Store, s: Id, t: Id)
    requires Wf(st) && s in st.nodes && t in st.nodes && s != t
    ensures NodeRemovable(st, s) && NodeRemovable(WithoutNode(st, s), t)
    ensures var r := RemoveEnds(st, s, t);
      && Wf(r)
      && r.nodes.Keys == st.nodes.Keys - {s, t}
      && r.links.Keys == LinksAvoiding(LinksAvoiding(st.links.Keys, s), t)
  {
    RemoveNodeWf(st, s);
    RemoveNodeWf(WithoutNode(st, s), t);
  }

  /** On a well-formed graph, `replace_link_by_node` up to its final loop
      does not abort and works on the given ids. */
  lemma PrepareIs(st: Store, geo: Geometry, s: Id, t: Id)
    requires Wf(st) && s in st.nodes && t in st.nodes && s != t
    ensures NodeRemovable(st, s) && NodeRemovable(WithoutNode(st, s), t)
    ensures Prepare(st, geo, s, t)
      == Some((WithNode(RemoveEnds(st, s, t), NewNode(geo, st.nodes[s], st.nodes[t])), ContractedId(s, t), MergedNeighbours(st, s, t)))
  {
    RemoveEndsWf(st, s, t);
  }

  /** The state just before the attaching loop, on a well-formed graph. */
  lemma BeforeAttach(st: Store, geo: Geometry, s: Id, t: Id)
    requires Wf(st) && s in st.nodes && t in st.nodes && s != t && ContractedId(s, t) !in st.nodes
    ensures Prepare(st, geo, s, t).Some?
    ensures var p := Prepare(st, geo, s, t).value;
      && p.1 == ContractedId(s, t) && p.2 == MergedNeighbours(st, s, t)
      && Wf(p.0)
      && p.0.nodes.Keys == st.nodes.Keys - {s, t} + {p.1}
      && p.0.links.Keys == LinksAvoiding(LinksAvoiding(st.links.Keys, s), t)
      && p.0.nodes[p.1] == NewNode(geo, st.nodes[s], st.nodes[t])
  {
    PrepareIs(st, geo, s, t);
    RemoveEndsWf(st, s, t);
    InsertNodeKeepsWf(RemoveEnds(st, s, t), NewNode(geo, st.nodes[s], st.nodes[t]));
  }

  /** Before the attaching loop, the contracted node is unlinked and its
      merged neighbours are distinct existing nodes. */
  lemma BeforeAttachable(st: Store, geo: Geometry, s: Id, t: Id)
    requires Wf(st) && s in st.nodes && t in st.nodes && s != t && ContractedId(s, t) !in st.nodes
    ensures Prepare(st, geo, s, t).Some?
    ensures var p := Prepare(st, geo, s, t).value; Attachable(p.0, p.1, p.2)
  {
    var id := ContractedId(s, t);
    PrepareIs(st, geo, s, t);
    RemoveEndsWf(st, s, t);
    var st2 := RemoveEnds(st, s, t);
    var ns := MergedNeighbours(st, s, t);
    NormalizedSpec(st.nodes[s].neighbours + st.nodes[t].neighbours, s, t);
    StrictlySortedDistinct(ns);
    MergedElems(st, s, t);
    forall v | v in ns ensures (id, v) !in st2.links && (v, id) !in st2.links {
      LinkEndsPresent(st2, id, v);
    }
  }

  /** The merged list names existing nodes other than the two end nodes. */
  lemma MergedElems(st: Store, s: Id, t: Id)
    requires Wf(st) && s in st.nodes && t in st.nodes
    ensures Elems(MergedNeighbours(st, s, t))
      == (Elems(st.nodes[s].neighbours) + Elems(st.nodes[t].neighbours)) - {s, t}
    ensures Elems(MergedNeighbours(st, s, t)) <= st.nodes.Keys
  {
    var xs := st.nodes[s].neighbours + st.nodes[t].neighbours;
    NormalizedSpec(xs, s, t);
    forall v ensures v in xs <==> v in st.nodes[s].neighbours || v in st.nodes[t].neighbours {
    }
    NeighboursPresent(st, s);
    NeighboursPresent(st, t);
  }

  /** No link of a well-formed graph mentions a missing node. */
  lemma LinkEndsPresent(st: Store, a: Id, b: Id)
    requires IndexInvariant(st) && Symmetric(st) && a !in st.nodes
    ensures (a, b) !in st.links && (b, a) !in st.links
  {
    assert (b, a) in st.links ==> (a, b) in st.links;
  }

  lemma StrictlySortedDistinct(xs: seq<string>)
    requires StrictlySorted(xs)
    ensures Distinct(xs)
  {
    forall i, j | 0 <= i < j < |xs| ensures xs[i] != xs[j] {
      LessIrreflexive(xs[i]);
    }
  }

  /** `replace_link_by_node` on a well-formed graph, for two different
      nodes whose contracted id is new: it does not abort, the graph stays
      well-formed, and the two end nodes are replaced by the contracted one,
      so the graph has one node less. */
  lemma ContractWf(st: Store, geo: Geometry, s: Id, t: Id)
    requires Wf(st) && s in st.nodes && t in st.nodes && s != t && ContractedId(s, t) !in st.nodes
    ensures Contract(st, geo, s, t).Some?
    ensures var r := Contract(st, geo, s, t).value;
      && Wf(r)
      && r.nodes.Keys == st.nodes.Keys - {s, t} + {ContractedId(s, t)}
      && |r.nodes| == |st.nodes| - 1
  {
    BeforeAttach(st, geo, s, t);
    BeforeAttachable(st, geo, s, t);
    var p := Prepare(st, geo, s, t).value;
    AttachWf(p.0, p.1, p.2);
    AttachKeys(p.0, p.1, p.2);
    ReplaceTwoByOne(st.nodes.Keys, s, t, ContractedId(s, t));
  }

  /** Two members replaced by a new one: one member less. */
  lemma ReplaceTwoByOne<T>(keys: set<T>, a: T, b: T, c: T)
    requires a in keys && b in keys && a != b
    ensures |keys - {a} - {b}| == |keys| - 2
    ensures c !in keys ==> |keys - {a, b} + {c}| == |keys| - 1
  {
    assert keys - {a, b} == keys - {a} - {b};
  }

  /** The contracted node: the midpoint of the two end nodes, linked to
      their merged neighbours. */
  lemma ContractNode(st: Store, geo: Geometry, s: Id, t: Id)
    requires Wf(st) && s in st.nodes && t in st.nodes && s != t && ContractedId(s, t) !in st.nodes
    ensures Contract(st, geo, s, t).Some?
    ensures var r := Contract(st, geo, s, t).value; var id := ContractedId(s, t);
      var m := geo.mid(CoordinateOf(st.nodes[s]), CoordinateOf(st.nodes[t]));
      id in r.nodes && r.nodes[id] == Node(id, m.0, m.1, MergedNeighbours(st, s, t))
  {
    BeforeAttach(st, geo, s, t);
    BeforeAttachable(st, geo, s, t);
    var p := Prepare(st, geo, s, t).value;
    AttachList(p.0, p.1, p.2);
  }

  /** The links after the contraction: those not touching either end node,
      and both directions between the contracted node and each merged
      neighbour. */
  lemma ContractLinks(st: Store, geo: Geometry, s: Id, t: Id)
    requires Wf(st) && s in st.nodes && t in st.nodes && s != t && ContractedId(s, t) !in st.nodes
    ensures Contract(st, geo, s, t).Some?
    ensures var r := Contract(st, geo, s, t).value;
      r.links.Keys == LinksAvoiding(LinksAvoiding(st.links.Keys, s), t) + Spokes(ContractedId(s, t), MergedNeighbours(st, s, t))
  {
    BeforeAttach(st, geo, s, t);
    BeforeAttachable(st, geo, s, t);
    var p := Prepare(st, geo, s, t).value;
    AttachSome(p.0, p.1, p.2);
    assert Contract(st, geo, s, t) == Attach(p.0, p.1, p.2);
    AttachKeys(p.0, p.1, p.2);
  }

  /** After the contraction the lists still agree with the link table. */
  lemma ContractListed(st: Store, geo: Geometry, s: Id, t: Id, u: Id, v: Id)
    requires Wf(st) && s in st.nodes && t in st.nodes && s != t && ContractedId(s, t) !in st.nodes
    requires u in st.nodes && u != s && u != t
    ensures Contract(st, geo, s, t).Some?
    ensures var r := Contract(st, geo, s, t).value;
      u in r.nodes && (v in r.nodes[u].neighbours <==> (u, v) in r.links)
  {
    ContractWf(st, geo, s, t);
    ListedIffLinked(Contract(st, geo, s, t).value, u, v);
  }

  /** Membership in the link table after the contraction. */
  lemma ContractLinked(st: Store, geo: Geometry, s: Id, t: Id, l: Link)
    requires Wf(st) && s in st.nodes && t in st.nodes && s != t && ContractedId(s, t) !in st.nodes
    ensures Contract(st, geo, s, t).Some?
    ensures var r := Contract(st, geo, s, t).value; var id := ContractedId(s, t); var ns := MergedNeighbours(st, s, t);
      l in r.links <==>
        (l in st.links && l.0 != s && l.0 != t && l.1 != s && l.1 != t) ||
        (l.0 == id && l.1 in ns) || (l.1 == id && l.0 in ns)
  {
    ContractLinks(st, geo, s, t);
    SpokesSpec(ContractedId(s, t), MergedNeighbours(st, s, t), l);
  }

  /** The neighbour lists of the other nodes: the end nodes disappear from
      them, and every node that was adjacent to either end is now adjacent
      to the contracted node. */
  lemma ContractNeighbours(st: Store, geo: Geometry, s: Id, t: Id, u: Id, v: Id)
    requires Wf(st) && s in st.nodes && t in st.nodes && s != t && ContractedId(s, t) !in st.nodes
    requires u in st.nodes && u != s && u != t
    ensures Contract(st, geo, s, t).Some?
    ensures var r := Contract(st, geo, s, t).value; var nu := st.nodes[u].neighbours;
      u in r.nodes &&
      (v in r.nodes[u].neighbours <==>
        (v in nu && v != s && v != t) || (v == ContractedId(s, t) && (s in nu || t in nu)))
  {
    var id := ContractedId(s, t);
    ContractListed(st, geo, s, t, u, v);
    ContractLinked(st, geo, s, t, (u, v));
    ListedIffLinked(st, u, v);
    NeighboursPresent(st, u);
    assert u != id && id !in Elems(st.nodes[u].neighbours);
    MergedElems(st, s, t);
    NeighbourSymmetric(st, s, u);
    NeighbourSymmetric(st, t, u);
    var r := Contract(st, geo, s, t).value;
    var nu := st.nodes[u].neighbours;
    var ns := MergedNeighbours(st, s, t);
    assert (v in r.nodes[u].neighbours) == ((u, v) in r.links);
    assert ((u, v) in r.links) == (((u, v) in st.links && v != s && v != t) || (v == id && u in ns));
    assert ((u, v) in st.links) == (v in nu);
    assert (u in ns) == (u in Elems(ns));
    assert (u in Elems(st.nodes[s].neighbours)) == (u in st.nodes[s].neighbours);
    assert (u in Elems(st.nodes[t].neighbours)) == (u in st.nodes[t].neighbours);
    assert (u in ns) == (s in nu || t in nu);
  }

  /** Removing both ends keeps the id and coordinates of every other node. */
  lemma RemoveEndsRecords(st: Store, s: Id, t: Id)
    requires Wf(st) && s in st.nodes && t in st.nodes && s != t
    ensures NodeRemovable(st, s) && NodeRemovable(WithoutNode(st, s), t)
    ensures var r := RemoveEnds(st, s, t);
      forall u :: u in r.nodes ==> u in st.nodes && r.nodes[u] == st.nodes[u].(neighbours := r.nodes[u].neighbours)
  {
    RemoveNodeWf(st, s);
    RemoveNodeLists(st, s);
    RemoveNodeLists(WithoutNode(st, s), t);
  }

  /** Every node other than the contracted one keeps its id and
      coordinates. */
  lemma ContractRecords(st: Store, geo: Geometry, s: Id, t: Id)
    requires Wf(st) && s in st.nodes && t in st.nodes && s != t && ContractedId(s, t) !in st.nodes
    ensures Contract(st, geo, s, t).Some?
    ensures var r := Contract(st, geo, s, t).value;
      forall u :: u in r.nodes && u != ContractedId(s, t) ==>
        u in st.nodes && r.nodes[u] == st.nodes[u].(neighbours := r.nodes[u].neighbours)
  {
    PrepareIs(st, geo, s, t);
    BeforeAttachable(st, geo, s, t);
    var p := Prepare(st, geo, s, t).value;
    AttachOthers(p.0, p.1, p.2);
    AttachKeys(p.0, p.1, p.2);
    RemoveEndsRecords(st, s, t);
  }

  /** Contracting `(s, t)` or `(t, s)` yields the same contracted node id,
      neighbour list and node set; only the midpoint may differ, since it is
      computed from the two ends in order. */
  lemma ContractOrientation(st: Store, geo: Geometry, s: Id, t: Id)
    requires Wf(st) && s in st.nodes && t in st.nodes && s != t && ContractedId(s, t) !in st.nodes
    ensures Contract(st, geo, s, t).Some? && Contract(st, geo, t, s).Some?
    ensures var r1 := Contract(st, geo, s, t).value; var r2 := Contract(st, geo, t, s).value;
      var id := ContractedId(s, t);
      && r1.nodes.Keys == r2.nodes.Keys
      && id in r1.nodes && id in r2.nodes
      && r1.nodes[id].neighbours == r2.nodes[id].neighbours
  {
    ContractedIdSymmetric(s, t);
    ContractWf(st, geo, s, t);
    ContractWf(st, geo, t, s);
    ContractNode(st, geo, s, t);
    ContractNode(st, geo, t, s);
    MergedSymmetric(st, s, t);
  }

  /** The merged list does not depend on the order of the two ends. */
  lemma MergedSymmetric(st: Store, s: Id, t: Id)
    requires Wf(st) && s in st.nodes && t in st.nodes
    ensures MergedNeighbours(st, s, t) == MergedNeighbours(st, t, s)
  {
    var xs := MergedNeighbours(st, s, t);
    var ys := MergedNeighbours(st, t, s);
    NormalizedSpec(st.nodes[s].neighbours + st.nodes[t].neighbours, s, t);
    NormalizedSpec(st.nodes[t].neighbours + st.nodes[s].neighbours, t, s);
    MergedElems(st, s, t);
    MergedElems(st, t, s);
    StrictlySortedUnique(xs, ys);
  }
}
