/** The simplification passes of src/heuristics.rs as methods that change a
    `Graph` in place. Each method is tied to the function of Splicing,
    Contraction or Components that describes its result; the requirement
    that this function is not `None` is exactly the requirement that the
    original does not abort. */
module Heuristics {
  import opened Wrappers
  import opened Strings
  import opened Utils
  import opened Geo
  import opened Stores
  import opened Graphs
  import opened Splicing
  import opened Contraction
  import opened Rounds
  import opened Components

  /** `bfs_largest_component`, walking the node table in `order`: a
      breadth-first search from every node not yet visited, keeping the
      first component larger than all before it, then a new graph holding
      that component with the links between its nodes. */
  method BfsLargestComponent(g: Graph, order: seq<Id>) returns (largest: Graph)
    requires IsEnumeration(order, g.nodes.Keys)
    requires KeyedById(g.State()) && NeighboursDeclared(g.State())
    ensures fresh(largest)
    ensures largest.nodes.Keys <= g.nodes.Keys
    ensures largest.nodes == map[] <==> g.nodes == map[]
    ensures Rebuilt(g.State(), largest.State(), largest.nodes.Keys)
    ensures largest.nodes != map[] ==>
      exists root :: root in largest.nodes && forall u :: u in largest.nodes ==> Reaches(g.State(), root, u)
    ensures Undirected(g.State()) ==>
      && Closed(g.State(), largest.nodes.Keys)
      && forall w :: w in g.nodes ==> |ReachSet(g.State(), w)| <= |largest.nodes.Keys|
    ensures Wf(g.State()) ==> Wf(largest.State())
  {
    var best, root := LargestComponent(g, order);
    largest := Rebuild(g, best);
    if Wf(g.State()) {
      RebuiltWf(g.State(), largest.State(), best.Keys);
    }
  }

  /** The search loop of `bfs_largest_component`: the nodes of the first
      largest component, each with an empty neighbour list. */
  method LargestComponent(g: Graph, order: seq<Id>) returns (best: map<Id, Node>, ghost root: Id)
    requires IsEnumeration(order, g.nodes.Keys)
    requires KeyedById(g.State()) && NeighboursDeclared(g.State())
    ensures best.Keys <= g.nodes.Keys
    ensures best == map[] <==> g.nodes == map[]
    ensures forall u :: u in best ==> best[u] == g.nodes[u].(neighbours := [])
    ensures best != map[] ==> root in best && forall u :: u in best ==> Reaches(g.State(), root, u)
    ensures Undirected(g.State()) ==>
      && Closed(g.State(), best.Keys)
      && forall w :: w in g.nodes ==> |ReachSet(g.State(), w)| <= |best.Keys|
  {
    ghost var st := g.State();
    var visited: set<Id> := {};
    best := map[];
    root := "";
    var bestSize := 0;
    for k := 0 to |order|
      invariant Surveyed(st, visited, best, root) && bestSize == |best.Keys|
      invariant Covered(order, k, visited)
    {
      ghost var before := visited;
      visited, best, root, bestSize := SurveyNode(g, order[k], visited, best, root, bestSize);
      CoveredStep(order, k, before, visited);
    }
    CoveredAll(order, visited, st.nodes.Keys);
    SurveyDone(st, visited, best, root);
  }

  /** One turn of the search loop over the node table: an unvisited node
      starts a search, whose component becomes the largest when it is
      strictly larger than the largest so far. */
  method SurveyNode(g: Graph, id: Id, visited: set<Id>, best: map<Id, Node>, ghost root: Id, bestSize: nat)
    returns (visited': set<Id>, best': map<Id, Node>, ghost root': Id, bestSize': nat)
    requires KeyedById(g.State()) && NeighboursDeclared(g.State()) && id in g.nodes
    requires Surveyed(g.State(), visited, best, root) && bestSize == |best.Keys|
    ensures Surveyed(g.State(), visited', best', root') && bestSize' == |best'.Keys|
    ensures visited <= visited' && id in visited'
  {
    visited', best', root', bestSize' := visited, best, root, bestSize;
    if id !in visited {
      var component, size;
      component, visited', size := Explore(g, id, visited);
      SurveyStep(g.State(), visited, best, root, id, component, visited');
      if size > bestSize {
        best', root', bestSize' := component, id, size;
      }
    }
  }

  /** One breadth-first search of `bfs_largest_component` from `start`:
      the records of the nodes it reaches, which were not visited before,
      and the visited set grown by them. */
  method Explore(g: Graph, start: Id, visited: set<Id>)
    returns (component: map<Id, Node>, visited': set<Id>, size: nat)
    requires KeyedById(g.State()) && NeighboursDeclared(g.State())
    requires start in g.nodes && start !in visited && visited <= g.nodes.Keys
    ensures Explored(g.State(), start, visited, component, visited')
    ensures size == |component.Keys|
  {
    ghost var st := g.State();
    var queue := [start];
    visited' := visited + {start};
    component := map[];
    size := 0;
    SearchStart(st, start, visited);
    while |queue| > 0
      invariant Searching(st, start, visited, component, queue, visited')
      invariant size == |component.Keys|
      decreases |st.nodes.Keys - component.Keys|
    {
      var id := queue[0];
      ghost var before, seen, previous := queue, visited', component;
      SearchPop(st, start, visited, component, queue, visited');
      queue := queue[1..];
      size := size + 1;
      var node := g.GetNode(id);
      SearchShrinks(st.nodes.Keys, component, node.id, node.(neighbours := []));
      component := component[node.id := node.(neighbours := [])];
      queue, visited' := PushNeighbours(node.neighbours, queue, visited');
      SearchStep(st, start, visited, previous, before, seen, node.id, node.(neighbours := []), queue, visited');
    }
    SearchDone(st, start, visited, component, visited');
  }

  /** The neighbour loop of the search: every neighbour not yet visited is
      marked visited and queued, in list order. */
  method PushNeighbours(ns: seq<Id>, queue: seq<Id>, visited: set<Id>)
    returns (queue': seq<Id>, visited': set<Id>)
    requires Distinct(queue) && forall u :: u in queue ==> u in visited
    ensures forall u :: u in visited' <==> u in visited || u in ns
    ensures |queue| <= |queue'| && queue'[..|queue|] == queue
    ensures forall u :: u in queue' <==> u in queue || (u in ns && u !in visited)
    ensures Distinct(queue')
  {
    queue', visited' := queue, visited;
    for i := 0 to |ns|
      invariant forall u :: u in visited' <==> u in visited || u in ns[..i]
      invariant |queue| <= |queue'| && queue'[..|queue|] == queue
      invariant forall u :: u in queue' <==> u in queue || (u in ns[..i] && u !in visited)
      invariant Distinct(queue') && forall u :: u in queue' ==> u in visited'
    {
      assert ns[..i + 1] == ns[..i] + [ns[i]];
      if ns[i] !in visited' {
        visited' := visited' + {ns[i]};
        queue' := queue' + [ns[i]];
      }
    }
    assert ns[..|ns|] == ns;
  }

  /** The rebuilding loop of `bfs_largest_component`, over the kept nodes
      in the table's order: a new graph with those records and, for each,
      a link to every former neighbour that was kept. */
  method Rebuild(g: Graph, best: map<Id, Node>) returns (largest: Graph)
    requires best.Keys <= g.nodes.Keys
    requires forall u :: u in best ==> best[u] == g.nodes[u].(neighbours := [])
    ensures fresh(largest)
    ensures largest.nodes.Keys == best.Keys
    ensures Rebuilt(g.State(), largest.State(), best.Keys)
  {
    ghost var st := g.State();
    largest := new Graph();
    largest.nodes := best;
    var remaining := best.Keys;
    RebuildStart(st, best, largest.State());
    while remaining != {}
      invariant Rebuilding(st, best, remaining, largest.State())
      decreases |remaining|
    {
      var id :| id in remaining;
      var node := g.GetNode(id);
      ghost var before := largest.State();
      RebuildRow(largest, id, node.neighbours);
      RebuildStep(st, best, remaining, before, id);
      remaining := remaining - {id};
    }
    RebuildDone(st, best, largest.State());
  }

  /** The links of one kept node: `insert_link` for every former neighbour
      that is a node of the new graph. */
  method RebuildRow(largest: Graph, id: Id, neighbours: seq<Id>)
    requires id in largest.nodes
    modifies largest
    ensures largest.State() == KeepLinks(old(largest.State()), id, neighbours)
  {
    ghost var target := KeepLinks(largest.State(), id, neighbours);
    for j := 0 to |neighbours|
      invariant id in largest.nodes
      invariant KeepLinks(largest.State(), id, neighbours[j..]) == target
    {
      assert neighbours[j..][1..] == neighbours[j + 1..];
      if neighbours[j] in largest.nodes {
        largest.InsertLink((id, neighbours[j]));
      }
    }
  }

  /** `replace_node_by_links`: remove the node, then link each pair of its
      former neighbours that is not linked in either direction. */
  method ReplaceNodeByLinks(g: Graph, id: Id)
    requires Splice(g.State(), id).Some?
    modifies g
    ensures g.State() == Splice(old(g.State()), id).value
  {
    ghost var target := Splice(g.State(), id).value;
    var neighbours := g.nodes[id].neighbours;
    g.RemoveNode(id);
    for i := 0 to |neighbours|
      invariant LinkRows(g.State(), neighbours, i) == Some(target)
    {
      LinkRowPass(g, neighbours, i);
    }
  }

  /** The inner loop of `replace_node_by_links`: the pairs of row `i`. */
  method LinkRowPass(g: Graph, neighbours: seq<Id>, i: nat)
    requires i < |neighbours| && LinkRow(g.State(), neighbours, i, i + 1).Some?
    modifies g
    ensures g.State() == LinkRow(old(g.State()), neighbours, i, i + 1).value
  {
    ghost var target := LinkRow(g.State(), neighbours, i, i + 1).value;
    for j := i + 1 to |neighbours|
      invariant LinkRow(g.State(), neighbours, i, j) == Some(target)
    {
      ghost var st := g.State();
      LinkRowStep(st, neighbours, i, j);
      var a, b := neighbours[i], neighbours[j];
      if (a, b) !in g.links && (b, a) !in g.links {
        g.InsertLink((a, b));
        g.InsertLink((b, a));
      }
      assert g.State() == LinkIfAbsent(st, a, b).value;
    }
  }

  /** `remove_degree_two_nodes`, walking the node table in `order`: first a
      snapshot of the nodes with two neighbours, returned as `removed`,
      then each of them spliced out in turn. */
  method RemoveDegreeTwoNodes(g: Graph, order: seq<Id>) returns (removed: seq<Id>)
    requires IsEnumeration(order, g.nodes.Keys)
    requires RemoveDegreeTwo(g.State(), order).Some?
    modifies g
    ensures removed == DegreeTwo(old(g.State()), order)
    ensures g.State() == RemoveDegreeTwo(old(g.State()), order).value
  {
    ghost var before := g.State();
    removed := [];
    for k := 0 to |order|
      invariant removed == DegreeTwo(before, order[..k])
    {
      assert order[..k + 1][..k] == order[..k];
      var node := g.nodes[order[k]];
      if |node.neighbours| == 2 {
        removed := removed + [order[k]];
      }
    }
    assert order[..|order|] == order;
    ghost var target := SpliceAll(before, removed).value;
    for k := 0 to |removed|
      invariant SpliceAll(g.State(), removed[k..]) == Some(target)
    {
      assert removed[k..][1..] == removed[k + 1..];
      ReplaceNodeByLinks(g, removed[k]);
    }
  }

  /** `remove_under_delta_nodes`, visiting the nodes in `order` (the
      original shuffles the ids first): a node is spliced out when none of
      its neighbours is farther than `delta`; the neighbour scan stops at
      the first far one. */
  method RemoveUnderDeltaNodesPass(g: Graph, geo: Geometry, delta: real, order: seq<Id>)
    requires RemoveUnderDeltaNodes(g.State(), geo, delta, order).Some?
    modifies g
    ensures g.State() == RemoveUnderDeltaNodes(old(g.State()), geo, delta, order).value
  {
    ghost var target := RemoveUnderDeltaNodes(g.State(), geo, delta, order).value;
    for k := 0 to |order|
      invariant RemoveUnderDeltaNodes(g.State(), geo, delta, order[k..]) == Some(target)
    {
      assert order[k..][1..] == order[k + 1..];
      var id := order[k];
      var node := g.GetNode(id);
      var remove := true;
      var i := 0;
      while i < |node.neighbours|
        modifies {}
        invariant 0 <= i <= |node.neighbours|
        invariant NeighboursLookable(g.State(), geo, delta, node, node.neighbours[i..])
        invariant remove
        invariant forall m :: 0 <= m < i ==>
          node.neighbours[m] in g.nodes && !(Distance(geo, node, g.nodes[node.neighbours[m]]) > delta)
      {
        assert node.neighbours[i..][1..] == node.neighbours[i + 1..];
        var neighbour := g.GetNode(node.neighbours[i]);
        if Distance(geo, node, neighbour) > delta {
          remove := false;
          break;
        }
        i := i + 1;
      }
      assert remove <==> Removable(g.State(), geo, delta, id);
      if remove {
        ReplaceNodeByLinks(g, id);
      }
    }
  }

  /** `replace_link_by_node`: both end nodes removed, the contracted node
      inserted at their midpoint and linked both ways to every former
      neighbour of either end. */
  method ReplaceLinkByNode(g: Graph, geo: Geometry, link: Link)
    requires Contract(g.State(), geo, link.0, link.1).Some?
    modifies g
    ensures g.State() == Contract(old(g.State()), geo, link.0, link.1).value
  {
    ghost var target := Contract(g.State(), geo, link.0, link.1).value;
    var source := g.GetNode(link.0);
    var targetNode := g.GetNode(link.1);
    g.RemoveNode(source.id);
    g.RemoveNode(targetNode.id);
    var sorted := Sort(source.neighbours + targetNode.neighbours);
    var unique := Dedup(sorted);
    var neighbours := Without(unique, source.id, targetNode.id);
    var id := ContractedId(source.id, targetNode.id);
    g.InsertNode(NewNode(geo, source, targetNode));
    for k := 0 to |neighbours|
      invariant Attach(g.State(), id, neighbours[k..]) == Some(target)
    {
      assert neighbours[k..][1..] == neighbours[k + 1..];
      g.InsertLink((id, neighbours[k]));
      g.InsertLink((neighbours[k], id));
    }
  }

  /** `remove_under_delta_links`: rounds of a sweep over the links, in an
      order the model leaves open, followed by a check for short links,
      until no short link is left. The loop ends in the model also when
      the original would panic or would repeat an unchanging round
      forever; on a well-formed graph whose ids never share a piece
      neither happens. */
  method RemoveUnderDeltaLinks(g: Graph, geo: Geometry, delta: real) returns (outcome: Outcome)
    modifies g
    ensures outcome == Settled ==> Checkable(g.State()) && !BelowDelta(g.State(), geo, delta)
    ensures outcome == Stuck ==> BelowDelta(g.State(), geo, delta) && !Symmetric(g.State())
    ensures outcome == Stuck ==> forall order :: IsEnumeration(order, g.links.Keys) ==>
      Sweep(g.State(), geo, delta, order) == Some(g.State())
    ensures |g.nodes| <= old(|g.nodes|)
    ensures old(Wf(g.State()) && PiecesDisjoint(g.nodes.Keys)) ==>
      && outcome == Settled
      && Wf(g.State()) && PiecesDisjoint(g.nodes.Keys)
      && AllPieces(g.nodes.Keys) == old(AllPieces(g.nodes.Keys))
  {
    ghost var good := Wf(g.State()) && PiecesDisjoint(g.nodes.Keys);
    ghost var pieces := AllPieces(g.nodes.Keys);
    ghost var initial := |g.nodes|;
    while true
      invariant |g.nodes| <= initial
      invariant good ==> Wf(g.State()) && PiecesDisjoint(g.nodes.Keys) && AllPieces(g.nodes.Keys) == pieces
      decreases |g.nodes|
    {
      var count := |g.nodes|;
      ghost var before := g.State();
      var order := EnumerateLinks(g);
      if good {
        SweepWf(before, geo, delta, order);
      }
      var swept := SweepPass(g, geo, delta, order);
      if !swept {
        return Aborted;
      }
      SweepShrinks(before, geo, delta, order);
      var checked, below := CheckPass(g, geo, delta);
      if good {
        WfCheckable(g.State());
      }
      if !checked {
        return Aborted;
      }
      if !below {
        return Settled;
      }
      if |g.nodes| == count {
        StuckAsymmetric(g.State(), geo, delta, order);
        forall next | IsEnumeration(next, g.links.Keys)
          ensures Sweep(g.State(), geo, delta, next) == Some(g.State())
        {
          StuckForever(g.State(), geo, delta, order, next);
        }
        return Stuck;
      }
    }
  }

  /** The snapshot of a round, `graph.links.keys().cloned().collect()`
      followed by a shuffle: every link once, in an order the model leaves
      open. */
  method EnumerateLinks(g: Graph) returns (order: seq<Link>)
    ensures IsEnumeration(order, g.links.Keys)
  {
    order := [];
    var remaining := g.links.Keys;
    while remaining != {}
      invariant remaining <= g.links.Keys
      invariant Distinct(order)
      invariant forall l :: l in order <==> l in g.links && l !in remaining
      decreases |remaining|
    {
      var l :| l in remaining;
      order := order + [l];
      remaining := remaining - {l};
    }
  }

  /** The sweep of a round: each snapshot link whose reverse is still
      present has both end nodes looked up and is contracted when shorter
      than `delta`. `swept` is false where the original panics. */
  method SweepPass(g: Graph, geo: Geometry, delta: real, order: seq<Link>) returns (swept: bool)
    modifies g
    ensures swept <==> Sweep(old(g.State()), geo, delta, order).Some?
    ensures swept ==> g.State() == Sweep(old(g.State()), geo, delta, order).value
    ensures |g.nodes| <= old(|g.nodes|)
  {
    ghost var result := Sweep(g.State(), geo, delta, order);
    ghost var initial := |g.nodes|;
    for k := 0 to |order|
      invariant Sweep(g.State(), geo, delta, order[k..]) == result
      invariant |g.nodes| <= initial
    {
      assert order[k..][1..] == order[k + 1..];
      var link := order[k];
      if (link.1, link.0) in g.links {
        if link.0 !in g.nodes || link.1 !in g.nodes {
          return false;
        }
        var source := g.GetNode(link.0);
        var target := g.GetNode(link.1);
        if Distance(geo, source, target) < delta {
          // the original panics inside `replace_link_by_node` here
          if Contract(g.State(), geo, link.0, link.1).None? {
            return false;
          }
          ContractShrinks(g.State(), geo, link.0, link.1);
          ReplaceLinkByNode(g, geo, link);
        }
      }
    }
    return true;
  }

  /** The check of a round, over the links in the table's own order: looks
      up both end nodes of every link and reports whether one is short.
      `checked` is false where the original panics. */
  method CheckPass(g: Graph, geo: Geometry, delta: real) returns (checked: bool, below: bool)
    ensures checked <==> Checkable(g.State())
    ensures checked ==> (below <==> BelowDelta(g.State(), geo, delta))
  {
    below := false;
    var remaining := g.links.Keys;
    while remaining != {}
      invariant remaining <= g.links.Keys
      invariant forall l :: l in g.links && l !in remaining ==> l.0 in g.nodes && l.1 in g.nodes
      invariant below <==> exists l :: l in g.links && l !in remaining && Short(g.State(), geo, delta, l)
      decreases |remaining|
    {
      var link :| link in remaining;
      if link.0 !in g.nodes || link.1 !in g.nodes {
        return false, below;
      }
      var source := g.GetNode(link.0);
      var target := g.GetNode(link.1);
      if Distance(geo, source, target) < delta {
        below := true;
      }
      remaining := remaining - {link};
    }
    checked := true;
  }
}
