/** The mutable graph of src/graph.rs: a node table and a link table that
    the methods update in place, each method tied to the store function of
    module Stores that describes its effect, and the record parser `_from`. */
module Graphs {
  import opened Wrappers
  import opened Strings
  import opened Utils
  import opened Stores

  /** The effect of one record of `_from`; `None` where the original
      aborts (a field count other than 2 or 3, or a link record whose
      endpoint has not been declared, which makes `insert_link` unwrap a
      missing node). */
  function FromRecord(st: Store, d: seq<string>): Option<Store>
  {
    if |d| == 3 then Some(WithNode(st, Node(d[0], d[2], d[1], [])))
    else if |d| == 2 then
      if d[0] in st.nodes && d[1] in st.nodes then Some(WithLink(WithLink(st, d[0], d[1]), d[1], d[0]))
      else None
    else None
  }

  /** `_from` over the lines already split off the input, as a left fold. */
  function FromLines(lines: seq<string>, sep: char): Option<Store>
    decreases |lines|
  {
    if |lines| == 0 then Some(Empty)
    else
      var acc :- FromLines(lines[..|lines| - 1], sep);
      FromRecord(acc, Fields(lines[|lines| - 1], sep))
  }

  /** A record `_from` accepts after the lines `before`. */
  predicate FromAccepts(before: seq<string>, sep: char, d: seq<string>)
  {
    |d| == 3 || (|d| == 2 && d[0] in DeclaredIds(before, sep) && d[1] in DeclaredIds(before, sep))
  }

  /** Both directions of every link record. */
  function BothWays(lines: seq<string>, sep: char): set<Link>
    decreases |lines|
  {
    if |lines| == 0 then {}
    else
      var d := Fields(lines[|lines| - 1], sep);
      BothWays(lines[..|lines| - 1], sep) + (if |d| == 2 then {(d[0], d[1]), (d[1], d[0])} else {})
  }

  class Graph {
    var nodes: map<Id, Node>
    var links: map<Link, nat>

    /** The graph as a value. */
    function State(): Store
      reads this
    {
      Store(nodes, links)
    }

    /** `Graph::new`. */
    constructor ()
      ensures State() == Empty
    {
      nodes := map[];
      links := map[];
    }

    /** `insert_node`: the first node stored under an id stays. */
    method InsertNode(node: Node)
      modifies this
      ensures State() == WithNode(old(State()), node)
      ensures old(IndexInvariant(State())) ==> IndexInvariant(State())
    {
      if node.id !in nodes {
        nodes := nodes[node.id := node];
      }
    }

    /** `get_node`: aborts on an absent id, so the id must be present. */
    method GetNode(id: Id) returns (node: Node)
      requires id in nodes
      ensures node == nodes[id]
      ensures KeyedById(State()) ==> node.id == id
    {
      node := nodes[id];
    }

    /** `insert_link`: aborts unless the source node exists. */
    method InsertLink(link: Link)
      requires link.0 in nodes
      modifies this
      ensures State() == WithLink(old(State()), link.0, link.1)
      ensures old(IndexInvariant(State())) ==> IndexInvariant(State())
    {
      ghost var before := State();
      var (source, target) := link;
      var node := nodes[source];
      var neighbours := node.neighbours + [target];
      nodes := nodes[source := node.(neighbours := neighbours)];
      links := links[(source, target) := |neighbours| - 1];
      if IndexInvariant(before) {
        InsertLinkKeepsIndex(before, source, target);
      }
    }

    /** `remove_link`: swap-remove the slot of the link and re-point the
        entry of the neighbour that moved into that slot. */
    method RemoveLink(link: Link)
      requires LinkRemovable(State(), link.0, link.1)
      modifies this
      ensures State() == WithoutLink(old(State()), link.0, link.1)
      ensures old(IndexInvariant(State())) ==> IndexInvariant(State())
    {
      ghost var before := State();
      var index := links[link];
      links := links - {link};
      var source := link.0;
      var node := nodes[source];
      var neighbours := node.neighbours;
      if |neighbours| == 0 || index == |neighbours| - 1 {
        nodes := nodes[source := node.(neighbours := SwapRemove(neighbours, index))];
      } else {
        var remaining := SwapRemove(neighbours, index);
        nodes := nodes[source := node.(neighbours := remaining)];
        var swapped := remaining[index];
        links := links[(source, swapped) := index];
      }
      if IndexInvariant(before) {
        RemoveLinkKeepsIndex(before, link.0, link.1);
      }
    }

    /** `remove_node`: unlink each neighbour of a copy of the node's list in
        both directions, then drop the node. */
    method RemoveNode(id: Id)
      requires NodeRemovable(State(), id)
      modifies this
      ensures State() == WithoutNode(old(State()), id)
      ensures old(Wf(State())) ==> Wf(State())
    {
      ghost var before := State();
      var neighbours := nodes[id].neighbours;
      var i := 0;
      while i < |neighbours|
        invariant 0 <= i <= |neighbours|
        invariant Detachable(State(), id, neighbours[i..])
        invariant DetachAll(State(), id, neighbours[i..]) == DetachAll(before, id, neighbours)
      {
        assert neighbours[i..][1..] == neighbours[i + 1..];
        RemoveLink((id, neighbours[i]));
        RemoveLink((neighbours[i], id));
        i := i + 1;
      }
      nodes := nodes - {id};
      if Wf(before) {
        RemoveNodeWf(before, id);
      }
    }

    /** The body of the loop of `_from`: a node record is inserted, a link
        record is inserted in both directions; `ok` is false where the
        original aborts. */
    method InsertRecord(data: seq<string>) returns (ok: bool)
      modifies this
      ensures ok <==> FromRecord(old(State()), data).Some?
      ensures ok ==> State() == FromRecord(old(State()), data).value
    {
      ok := true;
      if |data| == 3 {
        InsertNode(Node(data[0], data[2], data[1], []));
      } else if |data| == 2 {
        if data[0] !in nodes || data[1] !in nodes {
          return false;
        }
        InsertLink((data[0], data[1]));
        InsertLink((data[1], data[0]));
      } else {
        ok := false;
      }
    }

    /** `_from`: one record per line, split at `sep`; `ok` is false where
        the original aborts. */
    static method From(lines: seq<string>, sep: char) returns (graph: Graph, ok: bool)
      ensures fresh(graph)
      ensures ok <==> FromLines(lines, sep).Some?
      ensures ok ==> graph.State() == FromLines(lines, sep).value
    {
      graph := new Graph();
      var i := 0;
      while i < |lines|
        invariant 0 <= i <= |lines|
        invariant fresh(graph)
        invariant FromLines(lines[..i], sep) == Some(graph.State())
      {
        FromLinesStep(lines, sep, i);
        var accepted := graph.InsertRecord(Fields(lines[i], sep));
        if !accepted {
          FromPrefixFails(lines, sep, i + 1);
          return graph, false;
        }
        i := i + 1;
      }
      assert lines[..i] == lines;
      ok := true;
    }
  }

  // ---------------------------------------------------------------------
  // Lemmas on the store operations as the tests of src/graph.rs use them

  /** `insert_node` with a present id changes nothing; otherwise it adds
      exactly the one entry. */
  lemma InsertNodeEffect(st: Store, node: Node)
    ensures node.id in st.nodes ==> WithNode(st, node) == st
    ensures node.id !in st.nodes ==>
      && WithNode(st, node).nodes.Keys == st.nodes.Keys + {node.id}
      && WithNode(st, node).nodes[node.id] == node
      && (forall u :: u in st.nodes ==> WithNode(st, node).nodes[u] == st.nodes[u])
      && WithNode(st, node).links == st.links
  {
  }

  /** `insert_link` appends the target and records its slot; nothing else
      changes. */
  lemma InsertLinkEffect(st: Store, s: Id, t: Id)
    requires s in st.nodes
    ensures var r := WithLink(st, s, t);
      && r.nodes.Keys == st.nodes.Keys
      && r.nodes[s].neighbours == st.nodes[s].neighbours + [t]
      && r.links.Keys == st.links.Keys + {(s, t)}
      && r.links[(s, t)] == |st.nodes[s].neighbours|
      && (forall u :: u in st.nodes && u != s ==> r.nodes[u] == st.nodes[u])
      && (forall l :: l in st.links && l != (s, t) ==> r.links[l] == st.links[l])
  {
  }

  function Bare(id: Id): Node
  {
    Node(id, "", "", [])
  }

  /** The graph the tests of src/graph.rs build: three bare nodes and the
      links `u - v` and `v - w`, each inserted in both directions. */
  function PathUVW(): Store
  {
    var st := WithNode(WithNode(WithNode(Empty, Bare("u")), Bare("v")), Bare("w"));
    assert st.nodes.Keys == {"u", "v", "w"};
    WithLink(WithLink(WithLink(WithLink(st, "u", "v"), "v", "u"), "v", "w"), "w", "v")
  }

  /** The scenario of the `insert_link` test: `(u, v)` sits in slot 0 of
      `u` and `(v, w)` in slot 1 of `v`. */
  lemma InsertLinkScenario()
    ensures PathUVW().links == map[("u", "v") := 0, ("v", "u") := 0, ("v", "w") := 1, ("w", "v") := 0]
    ensures PathUVW().nodes["v"].neighbours == ["u", "w"]
  {
    var st0 := WithNode(WithNode(WithNode(Empty, Bare("u")), Bare("v")), Bare("w"));
    assert st0.nodes == map["u" := Bare("u"), "v" := Bare("v"), "w" := Bare("w")];
    var st2 := WithLink(WithLink(st0, "u", "v"), "v", "u");
    assert st2.nodes["v"].neighbours == ["u"];
    assert st2.links == map[("u", "v") := 0, ("v", "u") := 0];
  }

  /** The test graph is well-formed. */
  lemma PathUVWWf()
    ensures Wf(PathUVW())
  {
    var st0 := WithNode(WithNode(WithNode(Empty, Bare("u")), Bare("v")), Bare("w"));
    assert st0 == Store(map["u" := Bare("u"), "v" := Bare("v"), "w" := Bare("w")], map[]);
    assert Wf(st0);
    LinkPairWf(st0, "u", "v");
    LinkPairLists(st0, "u", "v");
    var st1 := WithLink(WithLink(st0, "u", "v"), "v", "u");
    LinkPairWf(st1, "v", "w");
  }

  /** The ids, links and end-node lists of the test graph. */
  lemma PathUVWShape()
    ensures var st := PathUVW();
      && st.nodes.Keys == {"u", "v", "w"}
      && st.links.Keys == {("u", "v"), ("v", "u"), ("v", "w"), ("w", "v")}
      && st.nodes["u"].neighbours == ["v"] && st.nodes["w"].neighbours == ["v"]
  {
    var st0 := WithNode(WithNode(WithNode(Empty, Bare("u")), Bare("v")), Bare("w"));
    assert st0 == Store(map["u" := Bare("u"), "v" := Bare("v"), "w" := Bare("w")], map[]);
    LinkPairLists(st0, "u", "v");
    var st1 := WithLink(WithLink(st0, "u", "v"), "v", "u");
    LinkPairLists(st1, "v", "w");
  }

  lemma NoLinkAvoidsV(keys: set<Link>)
    requires keys == {("u", "v"), ("v", "u"), ("v", "w"), ("w", "v")}
    ensures LinksAvoiding(keys, "v") == {}
  {
    forall l | l in keys ensures l.0 == "v" || l.1 == "v" { }
  }

  lemma NamesWithoutV()
    ensures {"u", "v", "w"} - {"v"} == {"u", "w"}
  {
    assert "u"[0] != "v"[0] && "w"[0] != "v"[0];
  }

  /** Removing the only neighbour of a node leaves it with none. */
  lemma RemovedLeaf(st: Store, x: Id, u: Id)
    requires Wf(st) && x in st.nodes && u in st.nodes && u != x && st.nodes[u].neighbours == [x]
    ensures NodeRemovable(st, x)
    ensures u in WithoutNode(st, x).nodes && WithoutNode(st, x).nodes[u].neighbours == []
  {
    RemoveNodeLists(st, x);
  }

  /** The scenario of the `remove_node` test: removing the middle of
      `u - v - w` leaves `u` and `w` without neighbours and no link at all. */
  lemma RemoveNodeScenario()
    ensures NodeRemovable(PathUVW(), "v")
    ensures var r := WithoutNode(PathUVW(), "v");
      && r.nodes.Keys == {"u", "w"}
      && r.nodes["u"].neighbours == [] && r.nodes["w"].neighbours == []
      && r.links == map[]
  {
    PathUVWWf();
    PathUVWShape();
    var st := PathUVW();
    NamesWithoutV();
    RemovedLeaf(st, "v", "u");
    RemovedLeaf(st, "v", "w");
    RemoveNodeWf(st, "v");
    NoLinkAvoidsV(st.links.Keys);
  }

  // ---------------------------------------------------------------------
  // Lemmas on `_from`

  /** One more line of `_from` is one more record. */
  lemma FromLinesStep(lines: seq<string>, sep: char, i: nat)
    requires i < |lines| && FromLines(lines[..i], sep).Some?
    ensures FromLines(lines[..i + 1], sep) == FromRecord(FromLines(lines[..i], sep).value, Fields(lines[i], sep))
  {
    assert lines[..i + 1][..i] == lines[..i];
  }

  lemma {:induction false} FromPrefixFails(lines: seq<string>, sep: char, k: nat)
    requires k <= |lines| && FromLines(lines[..k], sep) == None
    ensures FromLines(lines, sep) == None
    decreases |lines| - k
  {
    if k < |lines| {
      assert lines[..k + 1][..k] == lines[..k];
      FromPrefixFails(lines, sep, k + 1);
    } else {
      assert lines[..k] == lines;
    }
  }

  /** A successful `_from` declares exactly the ids of its node records and
      links both directions of every link record. */
  lemma {:induction false} FromKeys(lines: seq<string>, sep: char)
    requires FromLines(lines, sep).Some?
    ensures var st := FromLines(lines, sep).value;
      st.nodes.Keys == DeclaredIds(lines, sep) && st.links.Keys == BothWays(lines, sep)
    decreases |lines|
  {
    if |lines| > 0 {
      var n := |lines| - 1;
      var pre := lines[..n];
      FromKeys(pre, sep);
      var acc := FromLines(pre, sep).value;
      assert FromLines(lines, sep) == FromRecord(acc, Fields(lines[n], sep));
    }
  }

  /** One record of `_from` keeps the index invariant, symmetry and nodes
      keyed by id. */
  lemma FromRecordKeeps(st: Store, d: seq<string>)
    requires FromRecord(st, d).Some?
    requires IndexInvariant(st) && Symmetric(st) && KeyedById(st)
    ensures var r := FromRecord(st, d).value;
      IndexInvariant(r) && Symmetric(r) && KeyedById(r)
  {
    var r := FromRecord(st, d).value;
    if |d| == 2 {
      InsertLinkKeepsIndex(st, d[0], d[1]);
      InsertLinkKeepsIndex(WithLink(st, d[0], d[1]), d[1], d[0]);
      assert r.links.Keys == st.links.Keys + {(d[0], d[1]), (d[1], d[0])};
      forall l | l in r.links ensures (l.1, l.0) in r.links {
        if l != (d[0], d[1]) && l != (d[1], d[0]) {
          assert l in st.links;
        }
      }
    }
  }

  /** A successful `_from` keeps the index invariant, links every pair in
      both directions and keys every node by its id. */
  lemma {:induction false} FromInvariants(lines: seq<string>, sep: char)
    requires FromLines(lines, sep).Some?
    ensures var st := FromLines(lines, sep).value;
      IndexInvariant(st) && Symmetric(st) && KeyedById(st)
    decreases |lines|
  {
    if |lines| > 0 {
      var n := |lines| - 1;
      var pre := lines[..n];
      FromInvariants(pre, sep);
      var acc := FromLines(pre, sep).value;
      assert FromLines(lines, sep) == FromRecord(acc, Fields(lines[n], sep));
      FromRecordKeeps(acc, Fields(lines[n], sep));
    }
  }

  /** `_from` succeeds exactly when every record has two or three fields
      and every link record names two ids declared on earlier lines. */
  lemma {:induction false} FromSucceedsIff(lines: seq<string>, sep: char)
    ensures FromLines(lines, sep).Some? <==>
      forall j :: 0 <= j < |lines| ==> FromAccepts(lines[..j], sep, Fields(lines[j], sep))
    decreases |lines|
  {
    if |lines| > 0 {
      var n := |lines| - 1;
      FromSucceedsIff(lines[..n], sep);
      FromStep(lines, sep);
      AcceptsPrefix(lines, sep);
    }
  }

  /** The last record decides whether `_from` succeeds on a run of lines
      whose prefix it succeeds on. */
  lemma FromStep(lines: seq<string>, sep: char)
    requires |lines| > 0
    ensures var n := |lines| - 1;
      FromLines(lines, sep).Some? <==>
        FromLines(lines[..n], sep).Some? && FromAccepts(lines[..n], sep, Fields(lines[n], sep))
  {
    var n := |lines| - 1;
    if FromLines(lines[..n], sep).Some? {
      FromKeys(lines[..n], sep);
    }
  }

  /** Every record is accepted exactly when those of the prefix are and the
      last one is. */
  lemma AcceptsPrefix(lines: seq<string>, sep: char)
    requires |lines| > 0
    ensures var n, pre := |lines| - 1, lines[..|lines| - 1];
      (forall j :: 0 <= j < |lines| ==> FromAccepts(lines[..j], sep, Fields(lines[j], sep))) <==>
        (forall j :: 0 <= j < n ==> FromAccepts(pre[..j], sep, Fields(pre[j], sep)))
        && FromAccepts(pre, sep, Fields(lines[n], sep))
  {
    var n, pre := |lines| - 1, lines[..|lines| - 1];
    assert forall j :: 0 <= j < n ==> pre[j] == lines[j] && pre[..j] == lines[..j];
  }

  /** A link record in a prefix of a successful `_from` stays linked. */
  lemma FromLinkRecord(lines: seq<string>, sep: char, j: nat)
    requires FromLines(lines, sep).Some? && j < |lines| && |Fields(lines[j], sep)| == 2
    ensures var d := Fields(lines[j], sep); var st := FromLines(lines, sep).value;
      (d[0], d[1]) in st.links && (d[1], d[0]) in st.links
  {
    FromKeys(lines, sep);
    BothWaysHas(lines, sep, j);
  }

  lemma {:induction false} BothWaysHas(lines: seq<string>, sep: char, j: nat)
    requires j < |lines| && |Fields(lines[j], sep)| == 2
    ensures var d := Fields(lines[j], sep); (d[0], d[1]) in BothWays(lines, sep) && (d[1], d[0]) in BothWays(lines, sep)
    decreases |lines|
  {
    var n := |lines| - 1;
    if j < n {
      var pre := lines[..n];
      assert pre[j] == lines[j];
      BothWaysHas(pre, sep, j);
    }
  }

  /** One record of `_from` leaves a declared node in place except for the
      neighbours a link record appends. */
  lemma FromRecordNeighbours(st: Store, d: seq<string>, id: Id)
    requires FromRecord(st, d).Some? && id in st.nodes
    ensures var r := FromRecord(st, d).value;
      id in r.nodes && r.nodes[id] == st.nodes[id].(neighbours := st.nodes[id].neighbours + LinkEnds(d, id))
  {
  }

  /** The neighbours a link record appends to `id`: the target when `id` is
      the first field, then the source when `id` is the second. */
  function LinkEnds(d: seq<string>, id: Id): seq<Id>
  {
    if |d| == 2 then (if d[0] == id then [d[1]] else []) + (if d[1] == id then [d[0]] else []) else []
  }

  /** Every `LinkEnds` of a run of lines, in order. */
  function AllLinkEnds(lines: seq<string>, sep: char, id: Id): seq<Id>
    decreases |lines|
  {
    if |lines| == 0 then []
    else AllLinkEnds(lines[..|lines| - 1], sep, id) + LinkEnds(Fields(lines[|lines| - 1], sep), id)
  }

  /** The first node record of an id decides its coordinates (a repeated id
      keeps the first), and its neighbour list lists, in order, the other
      ends of the link records that follow. */
  lemma {:induction false} FromFirstDeclarationWins(lines: seq<string>, sep: char, f: nat, id: Id)
    requires FromLines(lines, sep).Some?
    requires f < |lines| && Declares(Fields(lines[f], sep), id)
    requires forall j :: 0 <= j < f ==> !Declares(Fields(lines[j], sep), id)
    ensures id in FromLines(lines, sep).value.nodes
    ensures var d := Fields(lines[f], sep);
      FromLines(lines, sep).value.nodes[id] == Node(id, d[2], d[1], AllLinkEnds(lines[f + 1..], sep, id))
    decreases |lines|
  {
    var n := |lines| - 1;
    var pre := lines[..n];
    var acc := FromLines(pre, sep).value;
    assert FromLines(lines, sep) == FromRecord(acc, Fields(lines[n], sep));
    if f == n {
      FromKeys(pre, sep);
      assert forall j :: 0 <= j < n ==> pre[j] == lines[j];
      NotDeclared(pre, sep, id);
      assert lines[f + 1..] == [];
    } else {
      assert forall j :: 0 <= j < f ==> pre[j] == lines[j];
      assert pre[f] == lines[f];
      FromFirstDeclarationWins(pre, sep, f, id);
      FromRecordNeighbours(acc, Fields(lines[n], sep), id);
      var rest := lines[f + 1..];
      assert rest[..|rest| - 1] == pre[f + 1..];
      assert rest[|rest| - 1] == lines[n];
    }
  }
}
