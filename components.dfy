/** Connected components, for `bfs_largest_component` (src/heuristics.rs):
    paths along neighbour lists, the set of nodes a node reaches, and the
    subgraph the original rebuilds on the nodes it keeps. */
module Components {
  import opened Strings
  import opened Utils
  import opened Stores
  import opened Graphs

  /** Every id in a neighbour list names a node: the search looks each one
      up and the original panics on a missing one. */
  ghost predicate NeighboursDeclared(st: Store)
  {
    forall u, v :: u in st.nodes && v in st.nodes[u].neighbours ==> v in st.nodes
  }

  /** Neighbour lists that agree in both directions. */
  ghost predicate Undirected(st: Store)
  {
    forall u, v :: u in st.nodes && v in st.nodes && v in st.nodes[u].neighbours ==> u in st.nodes[v].neighbours
  }

  /** `v` is listed as a neighbour of `u`, and both are nodes. */
  ghost predicate Adjacent(st: Store, u: Id, v: Id)
  {
    u in st.nodes && v in st.nodes && v in st.nodes[u].neighbours
  }

  ghost predicate IsPath(st: Store, p: seq<Id>)
  {
    |p| > 0 && p[0] in st.nodes && forall i, j :: 0 <= i && j == i + 1 && j < |p| ==> Adjacent(st, p[i], p[j])
  }

  ghost predicate Reaches(st: Store, a: Id, b: Id)
  {
    exists p :: IsPath(st, p) && p[0] == a && p[|p| - 1] == b
  }

  /** The connected component of `a`. */
  ghost function ReachSet(st: Store, a: Id): set<Id>
  {
    set b | b in st.nodes && Reaches(st, a, b)
  }

  /** A set of nodes no neighbour list leads out of. */
  ghost predicate Closed(st: Store, c: set<Id>)
  {
    c <= st.nodes.Keys && forall u, v :: u in c && Adjacent(st, u, v) ==> v in c
  }

  /** The neighbours of `xs` that are in `c`, in order (the membership test
      of the rebuilding loop). */
  function Keep(xs: seq<Id>, c: set<Id>): (r: seq<Id>)
    ensures |r| <= |xs|
    ensures forall v :: v in r <==> v in xs && v in c
    decreases |xs|
  {
    if |xs| == 0 then []
    else if xs[0] in c then [xs[0]] + Keep(xs[1..], c)
    else Keep(xs[1..], c)
  }

  /** The inner rebuilding loop for node `u`: a link from `u` to each of
      `ns` that is a node. */
  function KeepLinks(st: Store, u: Id, ns: seq<Id>): (r: Store)
    requires u in st.nodes
    ensures r.nodes.Keys == st.nodes.Keys
    decreases |ns|
  {
    if |ns| == 0 then st
    else KeepLinks(if ns[0] in st.nodes then WithLink(st, u, ns[0]) else st, u, ns[1..])
  }

  // ---------------------------------------------------------------------
  // Paths

  lemma ReachesSelf(st: Store, a: Id)
    requires a in st.nodes
    ensures Reaches(st, a, a)
  {
    assert IsPath(st, [a]);
  }

  /** The end of a path is a node. */
  lemma ReachedIsNode(st: Store, a: Id, b: Id)
    requires Reaches(st, a, b)
    ensures b in st.nodes
  {
    var p :| IsPath(st, p) && p[0] == a && p[|p| - 1] == b;
    if |p| > 1 {
      assert Adjacent(st, p[|p| - 2], p[|p| - 1]);
    }
  }

  /** A path extended by a neighbour of its end. */
  lemma ReachesStep(st: Store, a: Id, u: Id, v: Id)
    requires Reaches(st, a, u) && Adjacent(st, u, v)
    ensures Reaches(st, a, v)
  {
    var p :| IsPath(st, p) && p[0] == a && p[|p| - 1] == u;
    var q := p + [v];
    forall i, j | 0 <= i && j == i + 1 && j < |q| ensures Adjacent(st, q[i], q[j]) {
      if j < |p| {
        assert Adjacent(st, p[i], p[j]);
      }
    }
    assert IsPath(st, q);
  }

  /** Two paths joined end to start. */
  lemma ReachesTrans(st: Store, a: Id, b: Id, c: Id)
    requires Reaches(st, a, b) && Reaches(st, b, c)
    ensures Reaches(st, a, c)
  {
    var p :| IsPath(st, p) && p[0] == a && p[|p| - 1] == b;
    var q :| IsPath(st, q) && q[0] == b && q[|q| - 1] == c;
    var r := p + q[1..];
    forall i, j | 0 <= i && j == i + 1 && j < |r| ensures Adjacent(st, r[i], r[j]) {
      if j < |p| {
        assert Adjacent(st, p[i], p[j]);
      } else if i == |p| - 1 {
        assert r[i] == q[0] && r[j] == q[1];
        assert Adjacent(st, q[0], q[1]);
      } else {
        assert r[i] == q[i - |p| + 1] && r[j] == q[j - |p| + 1];
        assert Adjacent(st, q[i - |p| + 1], q[j - |p| + 1]);
      }
    }
    assert IsPath(st, r);
  }

  /** A path of `st` whose first step is reversed. */
  lemma ReachesBack(st: Store, u: Id, v: Id)
    requires Undirected(st) && Adjacent(st, u, v)
    ensures Reaches(st, v, u)
  {
    assert Adjacent(st, v, u);
    assert IsPath(st, [v, u]);
  }

  /** On undirected neighbour lists every path can be walked backwards. */
  lemma {:induction false} PathBack(st: Store, p: seq<Id>)
    requires Undirected(st) && IsPath(st, p)
    ensures Reaches(st, p[|p| - 1], p[0])
    decreases |p|
  {
    if |p| == 1 {
      ReachesSelf(st, p[0]);
    } else {
      var front := p[..|p| - 1];
      assert IsPath(st, front) by {
        forall i, j | 0 <= i && j == i + 1 && j < |front| ensures Adjacent(st, front[i], front[j]) {
          assert Adjacent(st, p[i], p[j]);
        }
      }
      PathBack(st, front);
      assert Adjacent(st, p[|p| - 2], p[|p| - 1]);
      ReachesBack(st, p[|p| - 2], p[|p| - 1]);
      ReachesTrans(st, p[|p| - 1], p[|p| - 2], p[0]);
    }
  }

  lemma ReachesSymmetric(st: Store, a: Id, b: Id)
    requires Undirected(st) && Reaches(st, a, b)
    ensures Reaches(st, b, a)
  {
    var p :| IsPath(st, p) && p[0] == a && p[|p| - 1] == b;
    PathBack(st, p);
  }

  /** A path that starts in a closed set stays in it. */
  lemma {:induction false} ClosedPath(st: Store, c: set<Id>, p: seq<Id>, i: nat)
    requires Closed(st, c) && IsPath(st, p) && p[0] in c && i < |p|
    ensures p[i] in c
    decreases i
  {
    if i > 0 {
      ClosedPath(st, c, p, i - 1);
      assert Adjacent(st, p[i - 1], p[i]);
    }
  }

  lemma ClosedReaches(st: Store, c: set<Id>, a: Id, b: Id)
    requires Closed(st, c) && a in c && Reaches(st, a, b)
    ensures b in c
  {
    var p :| IsPath(st, p) && p[0] == a && p[|p| - 1] == b;
    ClosedPath(st, c, p, |p| - 1);
  }

  /** A closed set whose members `root` all reaches is the component of
      `root`. */
  lemma ComponentIs(st: Store, c: set<Id>, root: Id)
    requires Closed(st, c) && root in c && forall u :: u in c ==> Reaches(st, root, u)
    ensures c == ReachSet(st, root)
  {
    forall b | b in ReachSet(st, root) ensures b in c {
      ClosedReaches(st, c, root, b);
    }
  }

  /** On undirected neighbour lists the members of a component all have
      that component. */
  lemma SameComponent(st: Store, root: Id, w: Id)
    requires Undirected(st) && w in ReachSet(st, root)
    ensures ReachSet(st, w) == ReachSet(st, root)
  {
    forall x | x in ReachSet(st, w) ensures x in ReachSet(st, root) {
      ReachesTrans(st, root, w, x);
    }
    forall x | x in ReachSet(st, root) ensures x in ReachSet(st, w) {
      ReachesSymmetric(st, root, w);
      ReachesTrans(st, w, root, x);
    }
  }

  /** A search that starts outside a closed set `before` and only leads
      into `before` or into its own nodes `c`: on undirected neighbour lists
      `c` is closed, and so is the union. */
  lemma SearchClosed(st: Store, before: set<Id>, c: set<Id>)
    requires Undirected(st) && Closed(st, before) && c <= st.nodes.Keys && before * c == {}
    requires forall u, v :: u in c && Adjacent(st, u, v) ==> v in before + c
    ensures Closed(st, c) && Closed(st, before + c)
  {
    forall u, v | u in c && Adjacent(st, u, v) ensures v in c {
      assert v in before ==> Adjacent(st, v, u) && u in before;
      assert u in before ==> u in before * c;
    }
  }

  /** The state of one breadth-first search from `start` that began with
      the nodes `before` already visited: the records taken so far, the
      queue and the visited set. */
  ghost predicate Searching(st: Store, start: Id, before: set<Id>, component: map<Id, Node>, queue: seq<Id>, seen: set<Id>)
  {
    && Distinct(queue)
    && (forall u :: u in seen <==> u in before || u in component || u in queue)
    && (forall u :: u in queue ==> u !in component && u !in before && u in st.nodes)
    && (forall u :: u in component ==> u !in before && u in st.nodes)
    && (start in component || start in queue)
    && (forall u :: u in component ==> component[u] == st.nodes[u].(neighbours := []))
    && (forall u :: u in component || u in queue ==> Reaches(st, start, u))
    && (forall u, v :: u in component && v in st.nodes[u].neighbours ==> v in seen)
  }

  lemma SearchStart(st: Store, start: Id, before: set<Id>)
    requires start in st.nodes && start !in before
    ensures Searching(st, start, before, map[], [start], before + {start})
  {
    ReachesSelf(st, start);
  }

  /** One turn of the search: the head of the queue is taken, and its
      neighbours not yet visited are visited and queued. */
  lemma SearchStep(st: Store, start: Id, before: set<Id>, component: map<Id, Node>, queue: seq<Id>, seen: set<Id>,
                   key: Id, record: Node, queue': seq<Id>, seen': set<Id>)
    requires Searching(st, start, before, component, queue, seen) && |queue| > 0
    requires NeighboursDeclared(st)
    requires key == queue[0] && record == st.nodes[key].(neighbours := [])
    requires forall u :: u in seen' <==> u in seen || u in st.nodes[key].neighbours
    requires forall u :: u in queue' <==> u in queue[1..] || (u in st.nodes[key].neighbours && u !in seen)
    requires Distinct(queue')
    ensures Searching(st, start, before, component[key := record], queue', seen')
  {
    var c := component[key := record];
    FirstOut(queue);
    forall u | u in queue' ensures Reaches(st, start, u) {
      if u !in queue[1..] {
        ReachesStep(st, start, key, u);
      }
    }
    assert forall u :: u in queue' ==> u !in c && u !in before && u in st.nodes;
    assert forall u :: u in seen' <==> u in before || u in c || u in queue';
  }

  /** Each turn of the search leaves fewer nodes to take. */
  lemma SearchShrinks(nodes: set<Id>, component: map<Id, Node>, key: Id, record: Node)
    requires key in nodes && key !in component
    ensures |nodes - component[key := record].Keys| < |nodes - component.Keys|
  {
    assert component[key := record].Keys == component.Keys + {key};
    OneMore(nodes, component.Keys, key);
  }

  /** The head of the queue is a node not taken yet; the rest of the
      queue has no repeats and is visited. */
  lemma SearchPop(st: Store, start: Id, before: set<Id>, component: map<Id, Node>, queue: seq<Id>, seen: set<Id>)
    requires Searching(st, start, before, component, queue, seen) && |queue| > 0
    ensures queue[0] in st.nodes && queue[0] !in component
    ensures Distinct(queue[1..]) && forall u :: u in queue[1..] ==> u in seen
  {
    FirstOut(queue);
  }

  /** When the queue is empty the search has taken every node it reached. */
  /** What one search from `start` finds, given the nodes visited
      `before`: a set of unvisited nodes, every one reached from `start`,
      together with the nodes visited before holding every neighbour of
      them; `seen` is the new visited set. */
  ghost predicate Explored(st: Store, start: Id, before: set<Id>, component: map<Id, Node>, seen: set<Id>)
  {
    && start in component && component.Keys <= st.nodes.Keys
    && component.Keys * before == {} && seen == before + component.Keys
    && (forall u :: u in component ==> component[u] == st.nodes[u].(neighbours := []))
    && (forall u :: u in component ==> Reaches(st, start, u))
    && (forall u, v :: u in component && v in st.nodes[u].neighbours ==> v in seen)
  }

  lemma SearchDone(st: Store, start: Id, before: set<Id>, component: map<Id, Node>, seen: set<Id>)
    requires Searching(st, start, before, component, [], seen)
    ensures Explored(st, start, before, component, seen)
  {
  }

  /** The first `k` nodes of `order` are in `visited`. */
  ghost predicate Covered(order: seq<Id>, k: nat, visited: set<Id>)
  {
    forall j :: 0 <= j < k && j < |order| ==> order[j] in visited
  }

  lemma CoveredStep(order: seq<Id>, k: nat, before: set<Id>, visited: set<Id>)
    requires Covered(order, k, before) && before <= visited && k < |order| && order[k] in visited
    ensures Covered(order, k + 1, visited)
  {
  }

  lemma CoveredAll(order: seq<Id>, visited: set<Id>, keys: set<Id>)
    requires Covered(order, |order|, visited) && forall u :: u in order <==> u in keys
    ensures keys <= visited
  {
    forall u | u in keys ensures u in visited {
      var j :| 0 <= j < |order| && order[j] == u;
    }
  }

  /** The state of the search loop over the node table: the nodes
      `visited` so far and the largest component found among them. */
  ghost predicate Surveyed(st: Store, visited: set<Id>, best: map<Id, Node>, root: Id)
  {
    && visited <= st.nodes.Keys && Closed(st, visited)
    && best.Keys <= visited
    && (visited != {} ==> best != map[])
    && (forall u :: u in best ==> best[u] == st.nodes[u].(neighbours := []))
    && (best != map[] ==> root in best && forall u :: u in best ==> Reaches(st, root, u))
    && (Undirected(st) ==>
         && Closed(st, best.Keys)
         && forall w :: w in visited ==> |ReachSet(st, w)| <= |best.Keys|)
  }

  /** A component found by a search from `start`, an unvisited node: on
      undirected neighbour lists it is the component of each of its
      members, and it is closed. */
  lemma NewComponent(st: Store, visited: set<Id>, start: Id, c: set<Id>)
    requires Undirected(st) && Closed(st, visited) && c <= st.nodes.Keys && c * visited == {} && start in c
    requires forall u :: u in c ==> Reaches(st, start, u)
    requires forall u, v :: u in c && Adjacent(st, u, v) ==> v in visited + c
    ensures Closed(st, c)
    ensures forall w :: w in c ==> ReachSet(st, w) == c
  {
    SearchClosed(st, visited, c);
    ComponentIs(st, c, start);
    forall w | w in c ensures ReachSet(st, w) == c {
      SameComponent(st, start, w);
    }
  }

  /** The visited set stays closed when a search adds its nodes. */
  lemma VisitedClosed(st: Store, visited: set<Id>, c: set<Id>)
    requires Closed(st, visited) && c <= st.nodes.Keys
    requires forall u, v :: u in c && Adjacent(st, u, v) ==> v in visited + c
    ensures Closed(st, visited + c)
  {
  }

  /** One search of the loop over the node table: its component replaces
      the largest so far exactly when it is larger. */
  lemma SurveyStep(st: Store, visited: set<Id>, best: map<Id, Node>, root: Id,
                   start: Id, component: map<Id, Node>, visited': set<Id>)
    requires Surveyed(st, visited, best, root) && Explored(st, start, visited, component, visited')
    ensures visited <= visited' && start in visited'
    ensures |component.Keys| > |best.Keys| ==> Surveyed(st, visited', component, start)
    ensures |component.Keys| <= |best.Keys| ==> Surveyed(st, visited', best, root)
  {
    VisitedClosed(st, visited, component.Keys);
    if Undirected(st) {
      NewComponent(st, visited, start, component.Keys);
    }
  }

  /** After the loop every node was visited. */
  lemma SurveyDone(st: Store, visited: set<Id>, best: map<Id, Node>, root: Id)
    requires Surveyed(st, visited, best, root) && st.nodes.Keys <= visited
    ensures best.Keys <= st.nodes.Keys
    ensures best == map[] <==> st.nodes == map[]
    ensures Undirected(st) ==> forall w :: w in st.nodes ==> |ReachSet(st, w)| <= |best.Keys|
  {
    if st.nodes != map[] {
      var w :| w in st.nodes;
      assert w in visited;
    }
  }

  /** The records of the rebuilding loop: the nodes not in `remaining`
      have their kept neighbours, the others none yet. */
  ghost predicate RowsKept(st: Store, best: map<Id, Node>, remaining: set<Id>, r: Store)
    requires best.Keys <= st.nodes.Keys && r.nodes.Keys == best.Keys
  {
    forall u :: u in best ==>
      r.nodes[u] == st.nodes[u].(neighbours := if u in remaining then [] else Keep(st.nodes[u].neighbours, best.Keys))
  }

  /** The links of the rebuilding loop: those from nodes not in
      `remaining` to kept neighbours. */
  ghost predicate LinksKept(st: Store, best: map<Id, Node>, remaining: set<Id>, r: Store)
    requires best.Keys <= st.nodes.Keys
  {
    forall l :: l in r.links <==>
      l.0 in best && l.0 !in remaining && l.1 in best && l.1 in st.nodes[l.0].neighbours
  }

  /** The state of the rebuilding loop. */
  ghost predicate Rebuilding(st: Store, best: map<Id, Node>, remaining: set<Id>, r: Store)
  {
    && best.Keys <= st.nodes.Keys && remaining <= best.Keys && r.nodes.Keys == best.Keys
    && RowsKept(st, best, remaining, r) && LinksKept(st, best, remaining, r) && IndexInvariant(r)
  }

  lemma RebuildStart(st: Store, best: map<Id, Node>, r: Store)
    requires best.Keys <= st.nodes.Keys && forall u :: u in best ==> best[u] == st.nodes[u].(neighbours := [])
    requires r == Store(best, map[])
    ensures Rebuilding(st, best, best.Keys, r)
  {
  }

  lemma RowsStep(st: Store, best: map<Id, Node>, remaining: set<Id>, r: Store, id: Id)
    requires best.Keys <= st.nodes.Keys && r.nodes.Keys == best.Keys && remaining <= best.Keys && id in remaining
    requires RowsKept(st, best, remaining, r)
    ensures RowsKept(st, best, remaining - {id}, KeepLinks(r, id, st.nodes[id].neighbours))
  {
    var ns := st.nodes[id].neighbours;
    var r' := KeepLinks(r, id, ns);
    KeepLinksRow(r, id, ns);
    forall u | u in best && u != id ensures r'.nodes[u] == r.nodes[u] {
      KeepLinksOthers(r, id, ns, u);
    }
    assert [] + Keep(ns, best.Keys) == Keep(ns, best.Keys);
  }

  lemma LinksStep(st: Store, best: map<Id, Node>, remaining: set<Id>, r: Store, id: Id)
    requires best.Keys <= st.nodes.Keys && r.nodes.Keys == best.Keys && remaining <= best.Keys && id in remaining
    requires LinksKept(st, best, remaining, r)
    ensures LinksKept(st, best, remaining - {id}, KeepLinks(r, id, st.nodes[id].neighbours))
  {
    var ns := st.nodes[id].neighbours;
    forall l ensures l in KeepLinks(r, id, ns).links <==> l in r.links || (l.0 == id && l.1 in ns && l.1 in best) {
      KeepLinksKeys(r, id, ns, l);
    }
  }

  /** One row of the rebuild moves its node out of `remaining`. */
  lemma RebuildStep(st: Store, best: map<Id, Node>, remaining: set<Id>, r: Store, id: Id)
    requires Rebuilding(st, best, remaining, r) && id in remaining
    ensures Rebuilding(st, best, remaining - {id}, KeepLinks(r, id, st.nodes[id].neighbours))
  {
    RowsStep(st, best, remaining, r, id);
    LinksStep(st, best, remaining, r, id);
    KeepLinksIndex(r, id, st.nodes[id].neighbours);
  }

  lemma RebuildDone(st: Store, best: map<Id, Node>, r: Store)
    requires Rebuilding(st, best, {}, r)
    ensures r.nodes.Keys == best.Keys && Rebuilt(st, r, best.Keys)
  {
  }

  /** A queue without repeats loses its head when popped. */
  lemma FirstOut(queue: seq<Id>)
    requires Distinct(queue) && |queue| > 0
    ensures Distinct(queue[1..]) && queue[0] !in queue[1..]
    ensures forall u :: u in queue <==> u == queue[0] || u in queue[1..]
  {
    assert queue == [queue[0]] + queue[1..];
    forall i, j | 0 <= i < j < |queue[1..]| ensures queue[1..][i] != queue[1..][j] {
      assert queue[i + 1] != queue[j + 1];
    }
  }

  /** Visiting one more node shrinks what is left to visit. */
  lemma OneMore(all: set<Id>, done: set<Id>, x: Id)
    requires x in all && x !in done
    ensures |all - (done + {x})| < |all - done|
  {
    assert all - done == (all - (done + {x})) + {x};
  }

  /** A well-formed graph has undirected, declared neighbour lists. */
  lemma WfUndirected(st: Store)
    requires Wf(st)
    ensures Undirected(st) && NeighboursDeclared(st)
  {
    forall u, v | u in st.nodes && v in st.nodes[u].neighbours ensures v in st.nodes {
      NeighboursPresent(st, u);
    }
    forall u, v | u in st.nodes && v in st.nodes && v in st.nodes[u].neighbours
      ensures u in st.nodes[v].neighbours
    {
      NeighbourSymmetric(st, u, v);
    }
  }

  /** Every listed neighbour has its link entry (not necessarily pointing
      at that slot: a repeated link record overwrites the entry). */
  ghost predicate ListsLinked(st: Store)
  {
    forall u, x :: u in st.nodes && x in st.nodes[u].neighbours ==> (u, x) in st.links
  }

  /** One record of `_from` keeps every listed neighbour linked. */
  lemma FromRecordListsLinked(st: Store, d: seq<string>)
    requires FromRecord(st, d).Some? && ListsLinked(st)
    ensures ListsLinked(FromRecord(st, d).value)
  {
    if |d| == 2 {
      var st1 := WithLink(st, d[0], d[1]);
      assert ListsLinked(st1) by {
        forall u, x | u in st1.nodes && x in st1.nodes[u].neighbours ensures (u, x) in st1.links {
          if u == d[0] && x !in st.nodes[u].neighbours {
            assert st1.nodes[u].neighbours == st.nodes[u].neighbours + [d[1]];
          }
        }
      }
      var r := WithLink(st1, d[1], d[0]);
      forall u, x | u in r.nodes && x in r.nodes[u].neighbours ensures (u, x) in r.links {
        if u == d[1] && x !in st1.nodes[u].neighbours {
          assert r.nodes[u].neighbours == st1.nodes[u].neighbours + [d[0]];
        }
      }
    }
  }

  /** A successful `_from` lists a neighbour only with its link entry. */
  lemma {:induction false} FromListsLinked(lines: seq<string>, sep: char)
    requires FromLines(lines, sep).Some?
    ensures ListsLinked(FromLines(lines, sep).value)
    decreases |lines|
  {
    if |lines| > 0 {
      var n := |lines| - 1;
      var pre := lines[..n];
      FromListsLinked(pre, sep);
      var acc := FromLines(pre, sep).value;
      assert FromLines(lines, sep) == FromRecord(acc, Fields(lines[n], sep));
      FromRecordListsLinked(acc, Fields(lines[n], sep));
    }
  }

  /** Every graph `_from` builds has undirected, declared neighbour lists,
      so the size bounds of `bfs_largest_component` hold on it. */
  lemma FromUndirected(lines: seq<string>, sep: char)
    requires FromLines(lines, sep).Some?
    ensures Undirected(FromLines(lines, sep).value) && NeighboursDeclared(FromLines(lines, sep).value)
  {
    var st := FromLines(lines, sep).value;
    FromListsLinked(lines, sep);
    FromInvariants(lines, sep);
    forall u, v | u in st.nodes && v in st.nodes[u].neighbours
      ensures v in st.nodes && u in st.nodes[v].neighbours
    {
      assert (u, v) in st.links && (v, u) in st.links;
    }
  }

  // ---------------------------------------------------------------------
  // Rebuilding

  lemma KeepDistinct(xs: seq<Id>, c: set<Id>)
    requires Distinct(xs)
    ensures Distinct(Keep(xs, c))
    decreases |xs|
  {
    if |xs| > 0 {
      assert Distinct(xs[1..]) by {
        forall i, j | 0 <= i < j < |xs[1..]| ensures xs[1..][i] != xs[1..][j] {
          assert xs[i + 1] != xs[j + 1];
        }
      }
      KeepDistinct(xs[1..], c);
      if xs[0] in c {
        assert xs[0] !in xs[1..];
      }
    }
  }

  lemma {:induction false} KeepAppend(xs: seq<Id>, x: Id, c: set<Id>)
    ensures Keep(xs + [x], c) == Keep(xs, c) + (if x in c then [x] else [])
    decreases |xs|
  {
    if |xs| > 0 {
      assert (xs + [x])[1..] == xs[1..] + [x];
      KeepAppend(xs[1..], x, c);
    }
  }

  /** One row of the rebuild: `u` receives the ids of `ns` that are nodes,
      in order. */
  lemma {:induction false} KeepLinksRow(st: Store, u: Id, ns: seq<Id>)
    requires u in st.nodes
    ensures KeepLinks(st, u, ns).nodes[u]
      == st.nodes[u].(neighbours := st.nodes[u].neighbours + Keep(ns, st.nodes.Keys))
    decreases |ns|
  {
    if |ns| > 0 {
      var next := if ns[0] in st.nodes then WithLink(st, u, ns[0]) else st;
      KeepLinksRow(next, u, ns[1..]);
      assert next.nodes.Keys == st.nodes.Keys;
      var tail := Keep(ns[1..], st.nodes.Keys);
      if ns[0] in st.nodes {
        assert Keep(ns, st.nodes.Keys) == [ns[0]] + tail;
        assert st.nodes[u].neighbours + [ns[0]] + tail == st.nodes[u].neighbours + ([ns[0]] + tail);
      }
    }
  }

  /** One row of the rebuild changes no other node. */
  lemma {:induction false} KeepLinksOthers(st: Store, u: Id, ns: seq<Id>, w: Id)
    requires u in st.nodes && w in st.nodes && w != u
    ensures KeepLinks(st, u, ns).nodes[w] == st.nodes[w]
    decreases |ns|
  {
    if |ns| > 0 {
      var next := if ns[0] in st.nodes then WithLink(st, u, ns[0]) else st;
      KeepLinksOthers(next, u, ns[1..], w);
    }
  }

  /** One row of the rebuild adds the links from `u` to the ids of `ns`
      that are nodes. */
  lemma {:induction false} KeepLinksKeys(st: Store, u: Id, ns: seq<Id>, l: Link)
    requires u in st.nodes
    ensures l in KeepLinks(st, u, ns).links <==> l in st.links || (l.0 == u && l.1 in ns && l.1 in st.nodes)
    decreases |ns|
  {
    if |ns| > 0 {
      var next := if ns[0] in st.nodes then WithLink(st, u, ns[0]) else st;
      KeepLinksKeys(next, u, ns[1..], l);
      assert next.nodes.Keys == st.nodes.Keys;
      assert l.1 in ns <==> l.1 == ns[0] || l.1 in ns[1..] by {
        assert ns == [ns[0]] + ns[1..];
      }
    }
  }

  /** One row of the rebuild keeps the index invariant. */
  lemma {:induction false} KeepLinksIndex(st: Store, u: Id, ns: seq<Id>)
    requires u in st.nodes && IndexInvariant(st)
    ensures IndexInvariant(KeepLinks(st, u, ns))
    decreases |ns|
  {
    if |ns| > 0 {
      var next := if ns[0] in st.nodes then WithLink(st, u, ns[0]) else st;
      if ns[0] in st.nodes {
        InsertLinkKeepsIndex(st, u, ns[0]);
      }
      KeepLinksIndex(next, u, ns[1..]);
    }
  }

  /** The graph the rebuild produces from `st` on the nodes `c`: their
      neighbour lists cut down to `c`, and exactly the links between them. */
  ghost predicate Rebuilt(st: Store, r: Store, c: set<Id>)
    requires c <= st.nodes.Keys
  {
    && r.nodes.Keys == c
    && (forall u :: u in c ==> r.nodes[u] == st.nodes[u].(neighbours := Keep(st.nodes[u].neighbours, c)))
    && (forall l :: l in r.links <==> l.0 in c && l.1 in c && l.1 in st.nodes[l.0].neighbours)
    && IndexInvariant(r)
  }

  lemma RebuiltSlots(st: Store, r: Store, c: set<Id>)
    requires Wf(st) && c <= st.nodes.Keys && Rebuilt(st, r, c)
    ensures SlotsLinked(r)
  {
    forall u, i | u in r.nodes && 0 <= i < |r.nodes[u].neighbours|
      ensures (u, r.nodes[u].neighbours[i]) in r.links && r.links[(u, r.nodes[u].neighbours[i])] == i
    {
      var ns := r.nodes[u].neighbours;
      SlotsDistinct(st, u);
      KeepDistinct(st.nodes[u].neighbours, c);
      assert ns[i] in ns;
      var k := r.links[(u, ns[i])];
      assert ns[k] == ns[i];
    }
  }

  lemma RebuiltSymmetric(st: Store, r: Store, c: set<Id>)
    requires Wf(st) && c <= st.nodes.Keys && Rebuilt(st, r, c)
    ensures Symmetric(r) && Loopless(r)
  {
    forall l | l in r.links ensures (l.1, l.0) in r.links && l.0 != l.1 {
      NeighbourLinked(st, l.0, l.1);
      NeighbourSymmetric(st, l.0, l.1);
    }
  }

  /** On a well-formed graph the rebuilt graph is well formed. */
  lemma RebuiltWf(st: Store, r: Store, c: set<Id>)
    requires Wf(st) && c <= st.nodes.Keys && Rebuilt(st, r, c)
    ensures Wf(r)
  {
    RebuiltSlots(st, r, c);
    RebuiltSymmetric(st, r, c);
  }
}
