/** The rounds of `remove_under_delta_links` (src/heuristics.rs): each
    round sweeps a snapshot of the link table in some order, contracting
    every short link whose reverse is still present, and then checks
    whether any short link is left. */
module Rounds {
  import opened Wrappers
  import opened Strings
  import opened Utils
  import opened Geo
  import opened Stores
  import opened Contraction

  /** How the outer loop ends: with no short link left (`Settled`), with
      a panic of the original (`Aborted`), or in a round that changes
      nothing while a short link is left, after which the original repeats
      the same round forever (`Stuck`). */
  datatype Outcome = Settled | Aborted | Stuck

  /** A link whose end nodes both exist and are closer than `delta`. */
  predicate Short(st: Store, geo: Geometry, delta: real, l: Link)
  {
    l.0 in st.nodes && l.1 in st.nodes && Distance(geo, st.nodes[l.0], st.nodes[l.1]) < delta
  }

  /** The condition the outer loop repeats on: some link is short. */
  ghost predicate BelowDelta(st: Store, geo: Geometry, delta: real)
  {
    exists l :: l in st.links && Short(st, geo, delta, l)
  }

  /** The check of a round looks up both end nodes of every link; it only
      completes when they all exist. */
  ghost predicate Checkable(st: Store)
  {
    forall l :: l in st.links ==> l.0 in st.nodes && l.1 in st.nodes
  }

  /** One turn of the sweep, for the snapshot link `l`: skipped unless its
      reverse is present; then both end nodes are looked up (`None` when
      one is missing: the original panics) and a short link is
      contracted. */
  function VisitLink(st: Store, geo: Geometry, delta: real, l: Link): Option<Store>
  {
    if (l.1, l.0) !in st.links then Some(st)
    else if l.0 !in st.nodes || l.1 !in st.nodes then None
    else if Distance(geo, st.nodes[l.0], st.nodes[l.1]) < delta then Contract(st, geo, l.0, l.1)
    else Some(st)
  }

  /** The sweep of one round over the snapshot `order`. */
  function Sweep(st: Store, geo: Geometry, delta: real, order: seq<Link>): Option<Store>
    decreases |order|
  {
    if |order| == 0 then Some(st)
    else
      var next :- VisitLink(st, geo, delta, order[0]);
      Sweep(next, geo, delta, order[1..])
  }

  /** Every original id some node of `keys` stands for. */
  ghost function AllPieces(keys: set<Id>): set<string>
  {
    set u, p | u in keys && p in Pieces(u) :: p
  }

  // ---------------------------------------------------------------------
  // Progress

  /** A turn never adds a node, and a turn that keeps the node count
      changes nothing. */
  lemma VisitShrinks(st: Store, geo: Geometry, delta: real, l: Link)
    requires VisitLink(st, geo, delta, l).Some?
    ensures var r := VisitLink(st, geo, delta, l).value;
      |r.nodes| <= |st.nodes| && (|r.nodes| == |st.nodes| ==> r == st)
  {
    if (l.1, l.0) in st.links && l.0 in st.nodes && l.1 in st.nodes
      && Distance(geo, st.nodes[l.0], st.nodes[l.1]) < delta {
      ContractShrinks(st, geo, l.0, l.1);
    }
  }

  /** A sweep never adds a node, and a sweep that keeps the node count
      changes nothing. */
  lemma {:induction false} SweepShrinks(st: Store, geo: Geometry, delta: real, order: seq<Link>)
    requires Sweep(st, geo, delta, order).Some?
    ensures var r := Sweep(st, geo, delta, order).value;
      |r.nodes| <= |st.nodes| && (|r.nodes| == |st.nodes| ==> r == st)
    decreases |order|
  {
    if |order| > 0 {
      var next := VisitLink(st, geo, delta, order[0]).value;
      VisitShrinks(st, geo, delta, order[0]);
      SweepShrinks(next, geo, delta, order[1..]);
    }
  }

  /** A short link whose reverse is present is contracted when visited. */
  lemma VisitShort(st: Store, geo: Geometry, delta: real, l: Link)
    requires Short(st, geo, delta, l)
    ensures VisitLink(st, geo, delta, l) == Some(st) ==> (l.1, l.0) !in st.links
  {
    if (l.1, l.0) in st.links && VisitLink(st, geo, delta, l).Some? {
      ContractShrinks(st, geo, l.0, l.1);
    }
  }

  /** In a sweep that changes nothing, every turn changes nothing. */
  lemma {:induction false} SweepFixed(st: Store, geo: Geometry, delta: real, order: seq<Link>, l: Link)
    requires Sweep(st, geo, delta, order) == Some(st) && l in order
    ensures VisitLink(st, geo, delta, l) == Some(st)
    decreases |order|
  {
    var next := VisitLink(st, geo, delta, order[0]).value;
    VisitShrinks(st, geo, delta, order[0]);
    SweepShrinks(next, geo, delta, order[1..]);
    assert next == st;
    if l != order[0] {
      SweepFixed(st, geo, delta, order[1..], l);
    }
  }

  /** A sweep made only of turns that change nothing changes nothing. */
  lemma {:induction false} FixedSweep(st: Store, geo: Geometry, delta: real, order: seq<Link>)
    requires forall l :: l in order ==> VisitLink(st, geo, delta, l) == Some(st)
    ensures Sweep(st, geo, delta, order) == Some(st)
    decreases |order|
  {
    if |order| > 0 {
      assert order[0] in order;
      FixedSweep(st, geo, delta, order[1..]);
    }
  }

  /** A round that changes nothing changes nothing in whatever order the
      next round walks the same links: the original's loop then repeats
      forever. */
  lemma StuckForever(st: Store, geo: Geometry, delta: real, order: seq<Link>, next: seq<Link>)
    requires Sweep(st, geo, delta, order) == Some(st)
    requires IsEnumeration(order, st.links.Keys) && IsEnumeration(next, st.links.Keys)
    ensures Sweep(st, geo, delta, next) == Some(st)
  {
    forall l | l in next ensures VisitLink(st, geo, delta, l) == Some(st) {
      SweepFixed(st, geo, delta, order, l);
    }
    FixedSweep(st, geo, delta, next);
  }

  /** A round over every link that changes nothing while a short link is
      left can only happen when that link's reverse is missing: on a graph
      whose links go both ways the loop always makes progress. */
  lemma StuckAsymmetric(st: Store, geo: Geometry, delta: real, order: seq<Link>)
    requires Sweep(st, geo, delta, order) == Some(st)
    requires IsEnumeration(order, st.links.Keys) && BelowDelta(st, geo, delta)
    ensures !Symmetric(st)
  {
    var l :| l in st.links && Short(st, geo, delta, l);
    SweepFixed(st, geo, delta, order, l);
    VisitShort(st, geo, delta, l);
    assert (l.1, l.0) !in st.links;
  }

  // ---------------------------------------------------------------------
  // Well-formed graphs

  /** Replacing two ids by one standing for both keeps every original id. */
  lemma AllPiecesReplace(keys: set<Id>, s: Id, t: Id, id: Id)
    requires s in keys && t in keys && Pieces(id) == Pieces(s) + Pieces(t)
    ensures AllPieces(keys - {s, t} + {id}) == AllPieces(keys)
  {
    var after := keys - {s, t} + {id};
    forall p | p in AllPieces(keys) ensures p in AllPieces(after) {
      var u :| u in keys && p in Pieces(u);
      if u == s || u == t {
        assert id in after && p in Pieces(id);
      } else {
        assert u in after;
      }
    }
    forall p | p in AllPieces(after) ensures p in AllPieces(keys) {
      var u :| u in after && p in Pieces(u);
      if u == id {
        assert p in Pieces(s) || p in Pieces(t);
      } else {
        assert u in keys;
      }
    }
  }

  /** The links of a well-formed graph join existing nodes. */
  lemma WfCheckable(st: Store)
    requires Wf(st)
    ensures Checkable(st)
  {
    forall l | l in st.links ensures l.0 in st.nodes && l.1 in st.nodes {
      assert (l.1, l.0) in st.links;
    }
  }

  /** On a well-formed graph with disjoint pieces a turn completes, and
      keeps the graph well formed, the pieces disjoint and every original
      id represented. */
  lemma VisitWf(st: Store, geo: Geometry, delta: real, l: Link)
    requires Wf(st) && PiecesDisjoint(st.nodes.Keys)
    ensures VisitLink(st, geo, delta, l).Some?
    ensures var r := VisitLink(st, geo, delta, l).value;
      && Wf(r) && PiecesDisjoint(r.nodes.Keys) && AllPieces(r.nodes.Keys) == AllPieces(st.nodes.Keys)
  {
    if (l.1, l.0) in st.links {
      assert (l.0, l.1) in st.links;
      assert l.0 in st.nodes && l.1 in st.nodes && l.0 != l.1;
      if Distance(geo, st.nodes[l.0], st.nodes[l.1]) < delta {
        ContractedIdFresh(st.nodes.Keys, l.0, l.1);
        ContractWf(st, geo, l.0, l.1);
        ContractedPieces(l.0, l.1);
        AllPiecesReplace(st.nodes.Keys, l.0, l.1, ContractedId(l.0, l.1));
      }
    }
  }

  /** On a well-formed graph with disjoint pieces a sweep in any order
      completes, and keeps the graph well formed, the pieces disjoint and
      every original id represented. */
  lemma {:induction false} SweepWf(st: Store, geo: Geometry, delta: real, order: seq<Link>)
    requires Wf(st) && PiecesDisjoint(st.nodes.Keys)
    ensures Sweep(st, geo, delta, order).Some?
    ensures var r := Sweep(st, geo, delta, order).value;
      && Wf(r) && PiecesDisjoint(r.nodes.Keys) && AllPieces(r.nodes.Keys) == AllPieces(st.nodes.Keys)
    decreases |order|
  {
    if |order| > 0 {
      VisitWf(st, geo, delta, order[0]);
      SweepWf(VisitLink(st, geo, delta, order[0]).value, geo, delta, order[1..]);
    }
  }
}
