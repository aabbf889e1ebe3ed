/** `discretize` (src/discretize.rs): every link whose two directions are
    both present and whose length is at least twice `delta` is replaced by
    a chain of evenly spaced synthetic nodes. The walk is over a snapshot
    of the link table, so the links the chains add are never visited. */
module Discretizer {
  import opened Wrappers
  import opened Strings
  import opened Utils
  import opened Geo
  import opened Stores
  import opened Graphs

  /** `(distance / delta) as u32`: Rust's float-to-integer cast rounds
      toward zero and saturates at both ends, and a NaN (`0 / 0`) gives 0. */
  function Parts(distance: real, delta: real): (part: nat)
    ensures part < U32Modulus
    ensures delta > 0.0 && 0.0 <= distance && distance / delta < U32Modulus as real ==>
      part as real <= distance / delta < part as real + 1.0
  {
    if delta == 0.0 then (if distance > 0.0 then U32Modulus - 1 else 0)
    else
      var q := distance / delta;
      if q <= 0.0 then 0
      else if q.Floor >= U32Modulus then U32Modulus - 1
      else q.Floor
  }

  /** With a positive `delta`, a link is split into more than one piece
      exactly when it is at least twice `delta` long. */
  lemma PartsSplits(distance: real, delta: real)
    requires delta > 0.0 && distance >= 0.0
    ensures Parts(distance, delta) > 1 <==> distance >= 2.0 * delta
  {
    var q := distance / delta;
    assert distance == q * delta;
    if q >= 2.0 {
      assert (q - 2.0) * delta >= 0.0;
      assert q.Floor as real > 1.0;
    } else {
      assert (2.0 - q) * delta > 0.0;
      assert q.Floor as real <= q < 2.0;
    }
  }

  /** The id of synthetic node `i` of `part` on the link whose canonical
      pair is `pair`: `"{a}-{b}:{i}/{part}"`. */
  function ChainId(pair: Link, i: nat, part: nat): Id
  {
    Concat([pair.0, "-", pair.1, ":", NatToString(i), "/", NatToString(part)])
  }

  /** Synthetic node `i`, at fraction `i / part` of the way from `source`
      to `target`, without neighbours. */
  function ChainNode(geo: Geometry, source: Node, target: Node, pair: Link, i: nat, part: nat): Node
  {
    var c := geo.between(CoordinateOf(source), CoordinateOf(target), i, part);
    Node(ChainId(pair, i, part), c.0, c.1, [])
  }

  /** The first inner loop after `i` turns: synthetic nodes `1 .. i - 1`
      inserted. */
  function InsertChain(st: Store, geo: Geometry, source: Node, target: Node, pair: Link, part: nat, i: nat): Store
    decreases i
  {
    if i <= 1 then st
    else WithNode(InsertChain(st, geo, source, target, pair, part, i - 1), ChainNode(geo, source, target, pair, i - 1, part))
  }

  /** `insert_link`, `None` where the original aborts for a missing source. */
  function Link(st: Store, s: Id, t: Id): Option<Store>
  {
    if s in st.nodes then Some(WithLink(st, s, t)) else None
  }

  /** The node before synthetic node `j` on the chain. */
  function Previous(src: Id, pair: Link, j: nat, part: nat): Id
  {
    if j <= 1 then src else ChainId(pair, j - 1, part)
  }

  /** The node after synthetic node `j` on the chain. */
  function Next(dst: Id, pair: Link, j: nat, part: nat): Id
  {
    if j == part - 1 then dst else ChainId(pair, j + 1, part)
  }

  /** Turn `j` of the second inner loop: the first synthetic node is linked
      from the source, the last from the target, and each links to the
      nodes before and after it. */
  function LinkStep(st: Store, src: Id, dst: Id, pair: Link, j: nat, part: nat): Option<Store>
  {
    var n := ChainId(pair, j, part);
    var st1 :- if j == 1 then Link(st, src, n) else Some(st);
    var st2 :- if j == part - 1 then Link(st1, dst, n) else Some(st1);
    var st3 :- Link(st2, n, Previous(src, pair, j, part));
    Link(st3, n, Next(dst, pair, j, part))
  }

  /** The second inner loop after `j` turns: turns `1 .. j - 1` done. */
  function LinkChain(st: Store, src: Id, dst: Id, pair: Link, part: nat, j: nat): Option<Store>
    decreases j
  {
    if j <= 1 then Some(st)
    else
      var prev :- LinkChain(st, src, dst, pair, part, j - 1);
      LinkStep(prev, src, dst, pair, j - 1, part)
  }

  /** One turn of the outer loop, for the snapshot link `l`: a link still
      present in both directions is looked up (`None` where the original
      aborts on a missing node or a link it cannot remove) and, when it is
      split into `part > 1` pieces, replaced by a chain. */
  function Subdivide(st: Store, geo: Geometry, delta: real, l: Link): Option<Store>
  {
    if l !in st.links || (l.1, l.0) !in st.links then Some(st)
    else if l.0 !in st.nodes || l.1 !in st.nodes then None
    else
      var source, target := st.nodes[l.0], st.nodes[l.1];
      var part := Parts(Distance(geo, source, target), delta);
      if part <= 1 then Some(st)
      else if !PairRemovable(st, l.0, l.1) then None
      else
        var pair := DeterministicLink(l.0, l.1);
        var st1 := InsertChain(Unlink(st, l.0, l.1), geo, source, target, pair, part, part);
        LinkChain(st1, source.id, target.id, pair, part, part)
  }

  /** The outer loop after the snapshot links `order` (a left fold). */
  function SubdivideAll(st: Store, geo: Geometry, delta: real, order: seq<Link>): Option<Store>
    decreases |order|
  {
    if |order| == 0 then Some(st)
    else
      var prev :- SubdivideAll(st, geo, delta, order[..|order| - 1]);
      Subdivide(prev, geo, delta, order[|order| - 1])
  }

  // ---------------------------------------------------------------------
  // The imperative discretizer

  /** `discretize`, walking the snapshot of the link table in the order
      `order`. */
  method Discretize(g: Graph, geo: Geometry, delta: real, order: seq<Link>)
    requires IsEnumeration(order, g.links.Keys)
    requires SubdivideAll(g.State(), geo, delta, order).Some?
    modifies g
    ensures g.State() == SubdivideAll(old(g.State()), geo, delta, order).value
  {
    ghost var st := g.State();
    for k := 0 to |order|
      invariant SubdivideAll(st, geo, delta, order[..k]).Some?
      invariant g.State() == SubdivideAll(st, geo, delta, order[..k]).value
    {
      assert order[..k + 1][..k] == order[..k];
      SubdivideAllPrefix(st, geo, delta, order, k + 1);
      SubdivideLink(g, geo, delta, order[k]);
    }
    assert order[..|order|] == order;
  }

  /** The body of the outer loop. */
  method SubdivideLink(g: Graph, geo: Geometry, delta: real, link: Link)
    requires Subdivide(g.State(), geo, delta, link).Some?
    modifies g
    ensures g.State() == Subdivide(old(g.State()), geo, delta, link).value
  {
    var (u, v) := link;
    if (u, v) in g.links && (v, u) in g.links {
      var source := g.GetNode(u);
      var target := g.GetNode(v);
      var part := Parts(Distance(geo, source, target), delta);
      if part > 1 {
        g.RemoveLink((u, v));
        g.RemoveLink((v, u));
        var pair := DeterministicLink(u, v);
        var newNodes := InsertChainNodes(g, geo, source, target, pair, part);
        LinkChainNodes(g, source.id, target.id, pair, part, newNodes);
      }
    }
  }

  /** The first inner loop: synthetic nodes `1 .. part - 1` inserted, their
      ids collected in order. */
  method InsertChainNodes(g: Graph, geo: Geometry, source: Node, target: Node, pair: Link, part: nat)
    returns (newNodes: seq<Id>)
    requires part > 1
    modifies g
    ensures g.State() == InsertChain(old(g.State()), geo, source, target, pair, part, part)
    ensures |newNodes| == part - 1
    ensures forall j :: 0 <= j < |newNodes| ==> newNodes[j] == ChainId(pair, j + 1, part)
  {
    ghost var st := g.State();
    newNodes := [];
    for i := 1 to part
      invariant g.State() == InsertChain(st, geo, source, target, pair, part, i)
      invariant |newNodes| == i - 1
      invariant forall j :: 0 <= j < |newNodes| ==> newNodes[j] == ChainId(pair, j + 1, part)
    {
      var node := ChainNode(geo, source, target, pair, i, part);
      newNodes := newNodes + [node.id];
      g.InsertNode(node);
    }
  }

  /** The second inner loop: the chain linked up, turn by turn. */
  method LinkChainNodes(g: Graph, src: Id, dst: Id, pair: Link, part: nat, newNodes: seq<Id>)
    requires part > 1 && |newNodes| == part - 1
    requires forall j :: 0 <= j < |newNodes| ==> newNodes[j] == ChainId(pair, j + 1, part)
    requires LinkChain(g.State(), src, dst, pair, part, part).Some?
    modifies g
    ensures g.State() == LinkChain(old(g.State()), src, dst, pair, part, part).value
  {
    ghost var st := g.State();
    for j := 1 to part
      invariant LinkChain(st, src, dst, pair, part, j).Some?
      invariant g.State() == LinkChain(st, src, dst, pair, part, j).value
    {
      LinkChainStep(st, src, dst, pair, part, j);
      LinkTurn(g, src, dst, pair, part, j, newNodes[j - 1]);
    }
  }

  /** One turn of the second inner loop. */
  method LinkTurn(g: Graph, src: Id, dst: Id, pair: Link, part: nat, j: nat, newNodeId: Id)
    requires 1 <= j < part && newNodeId == ChainId(pair, j, part)
    requires LinkStep(g.State(), src, dst, pair, j, part).Some?
    modifies g
    ensures g.State() == LinkStep(old(g.State()), src, dst, pair, j, part).value
  {
    var previous := ChainId(pair, j - 1, part);
    var next := ChainId(pair, j + 1, part);
    if j == 1 {
      previous := src;
      g.InsertLink((previous, newNodeId));
    }
    if j == part - 1 {
      next := dst;
      g.InsertLink((next, newNodeId));
    }
    g.InsertLink((newNodeId, previous));
    g.InsertLink((newNodeId, next));
  }

  // ---------------------------------------------------------------------
  // Prefixes of the loops

  lemma {:induction false} SubdivideAllPrefix(st: Store, geo: Geometry, delta: real, order: seq<Link>, k: nat)
    requires k <= |order| && SubdivideAll(st, geo, delta, order).Some?
    ensures SubdivideAll(st, geo, delta, order[..k]).Some?
    decreases |order| - k
  {
    if k < |order| {
      var pre := order[..|order| - 1];
      assert pre[..k] == order[..k];
      SubdivideAllPrefix(st, geo, delta, pre, k);
    } else {
      assert order[..k] == order;
    }
  }

  /** Turn `j` of a second inner loop that completes takes its state
      after `j` turns to its state after `j + 1`. */
  lemma LinkChainStep(st: Store, src: Id, dst: Id, pair: Link, part: nat, j: nat)
    requires 1 <= j < part && LinkChain(st, src, dst, pair, part, part).Some?
    ensures LinkChain(st, src, dst, pair, part, j).Some?
    ensures LinkChain(st, src, dst, pair, part, j + 1).Some?
    ensures LinkChain(st, src, dst, pair, part, j + 1)
      == LinkStep(LinkChain(st, src, dst, pair, part, j).value, src, dst, pair, j, part)
  {
    LinkChainPrefix(st, src, dst, pair, part, j + 1, part);
    LinkChainShrink(st, src, dst, pair, part, j + 1);
    LinkChainUnfold(st, src, dst, pair, part, j + 1);
  }

  lemma LinkChainUnfold(st: Store, src: Id, dst: Id, pair: Link, part: nat, k: nat)
    requires 2 <= k && LinkChain(st, src, dst, pair, part, k - 1).Some?
    ensures LinkChain(st, src, dst, pair, part, k)
      == LinkStep(LinkChain(st, src, dst, pair, part, k - 1).value, src, dst, pair, k - 1, part)
  {
  }

  /** A second inner loop that completes its first `k` turns completes the
      first `k - 1`. */
  lemma LinkChainShrink(st: Store, src: Id, dst: Id, pair: Link, part: nat, k: nat)
    requires 2 <= k && LinkChain(st, src, dst, pair, part, k).Some?
    ensures LinkChain(st, src, dst, pair, part, k - 1).Some?
  {
  }

  lemma {:induction false} LinkChainPrefix(st: Store, src: Id, dst: Id, pair: Link, part: nat, j: nat, k: nat)
    requires j <= k && LinkChain(st, src, dst, pair, part, k).Some?
    ensures LinkChain(st, src, dst, pair, part, j).Some?
    decreases k - j
  {
    if j < k && k >= 2 {
      LinkChainShrink(st, src, dst, pair, part, k);
      LinkChainPrefix(st, src, dst, pair, part, j, k - 1);
    }
  }
}
