/** The metrics of src/metrics.rs over the `(nodes, links)` pair that
    `load_graph` builds: the node and link counts and the histograms of
    node degrees and of substituted-node counts. */
module Metrics {
  import opened Strings
  import opened Utils
  import opened Stores
  import opened Contraction

  /** `n as u32` for a `usize` length: the low 32 bits. */
  function AsU32(n: nat): (r: nat)
    ensures r < U32Modulus
    ensures n < U32Modulus ==> r == n
    ensures (n - r) % U32Modulus == 0
  {
    n % U32Modulus
  }

  /** `count_nodes`: the number of nodes, as a `u32`. */
  function CountNodes(nodes: Nodes): (n: nat)
    ensures n < U32Modulus
    ensures |nodes| < U32Modulus ==> n == |nodes|
  {
    AsU32(|nodes|)
  }

  /** `count_links`: the number of canonical links, as a `u32`. */
  function CountLinks(links: Links): (n: nat)
    ensures n < U32Modulus
    ensures |links| < U32Modulus ==> n == |links|
  {
    AsU32(|links|)
  }

  // ---------------------------------------------------------------------
  // Histograms

  /** A histogram: value to number of nodes with that value. */
  type Histogram = map<nat, nat>

  /** `entry(k).or_insert(0)` followed by `insert(k, d[k] + 1)`. */
  function Bump(d: Histogram, k: nat): Histogram
  {
    d[k := (if k in d then d[k] else 0) + 1]
  }

  /** The histogram of `xs`, tallied from left to right. */
  function Tally(xs: seq<nat>): Histogram
    decreases |xs|
  {
    if |xs| == 0 then map[] else Bump(Tally(xs[..|xs| - 1]), xs[|xs| - 1])
  }

  /** The sum of the counts of a histogram. */
  ghost function Total(d: Histogram): nat
    decreases |d.Keys|
  {
    if d == map[] then 0
    else
      var k :| k in d;
      d[k] + Total(d - {k})
  }

  /** The values `f` gives the ids of `order`, in that order. */
  function Values(order: seq<Id>, f: Id -> nat): (r: seq<nat>)
    ensures |r| == |order|
    decreases |order|
  {
    if |order| == 0 then [] else Values(order[..|order| - 1], f) + [f(order[|order| - 1])]
  }

  /** The number of ids of `keys` to which `f` gives the value `k`. */
  ghost function Count(keys: set<Id>, f: Id -> nat, k: nat): nat
  {
    |set u | u in keys && f(u) == k|
  }

  /** A tally has an entry for exactly the values it saw, each counted as
      often as it occurs. */
  lemma {:induction false} TallyCounts(xs: seq<nat>)
    ensures forall k :: k in Tally(xs) <==> k in xs
    ensures forall k :: k in Tally(xs) ==> Tally(xs)[k] == multiset(xs)[k]
    decreases |xs|
  {
    if |xs| > 0 {
      var pre, x := xs[..|xs| - 1], xs[|xs| - 1];
      TallyCounts(pre);
      assert xs == pre + [x];
      assert multiset(xs) == multiset(pre) + multiset{x};
      forall k ensures k in xs <==> k in pre || k == x {
        assert k in xs <==> k in pre + [x];
      }
    }
  }

  /** The total can be taken apart at any entry. */
  lemma {:induction false} TotalAt(d: Histogram, k: nat)
    requires k in d
    ensures Total(d) == d[k] + Total(d - {k})
    decreases |d.Keys|
  {
    var j :| j in d && Total(d) == d[j] + Total(d - {j});
    if j != k {
      TotalAt(d - {j}, k);
      TotalAt(d - {k}, j);
      assert d - {j} - {k} == d - {k} - {j};
    }
  }

  /** Each node of the tally is counted once. */
  lemma {:induction false} TotalTally(xs: seq<nat>)
    ensures Total(Tally(xs)) == |xs|
    decreases |xs|
  {
    if |xs| > 0 {
      var pre, x := xs[..|xs| - 1], xs[|xs| - 1];
      var d := Tally(pre);
      TotalTally(pre);
      TotalAt(Bump(d, x), x);
      assert Bump(d, x) - {x} == d - {x};
      if x in d {
        TotalAt(d, x);
      } else {
        assert d - {x} == d;
      }
    }
  }

  /** A walk of a table has one step per key. */
  lemma {:induction false} EnumerationSize(order: seq<Id>, keys: set<Id>)
    requires IsEnumeration(order, keys)
    ensures |order| == |keys|
    decreases |order|
  {
    if |order| > 0 {
      var pre, x := order[..|order| - 1], order[|order| - 1];
      assert order == pre + [x];
      assert x !in pre;
      forall u ensures u in pre <==> u in keys - {x} {
        assert u in order <==> u in pre || u == x;
      }
      EnumerationSize(pre, keys - {x});
    }
  }

  lemma EnumerationAt(order: seq<Id>, keys: set<Id>, i: nat)
    requires IsEnumeration(order, keys) && i < |order|
    ensures order[i] in keys
  {
    assert order[i] in order;
  }

  /** Along a walk without repeats, the occurrences of a value are the ids
      with that value. */
  lemma {:induction false} ValuesCount(order: seq<Id>, f: Id -> nat, k: nat)
    requires Distinct(order)
    ensures multiset(Values(order, f))[k] == |set u | u in order && f(u) == k|
    decreases |order|
  {
    if |order| == 0 {
      assert (set u | u in order && f(u) == k) == {};
    } else {
      var pre, x := order[..|order| - 1], order[|order| - 1];
      ValuesCount(pre, f, k);
      assert order == pre + [x];
      assert multiset(Values(order, f)) == multiset(Values(pre, f)) + multiset{f(x)};
      MatchingSnoc(pre, x, f, k);
    }
  }

  lemma MatchingSnoc(pre: seq<Id>, x: Id, f: Id -> nat, k: nat)
    requires x !in pre
    ensures |set u | u in pre + [x] && f(u) == k|
         == |set u | u in pre && f(u) == k| + (if f(x) == k then 1 else 0)
  {
    var s, s' := set u | u in pre + [x] && f(u) == k, set u | u in pre && f(u) == k;
    if f(x) == k {
      assert s == s' + {x};
    } else {
      assert s == s';
    }
  }

  /** The histogram of the values along a walk of a table counts, for each
      value, the keys with that value, and its counts add up to the number
      of keys. */
  lemma HistogramOf(order: seq<Id>, keys: set<Id>, f: Id -> nat)
    requires IsEnumeration(order, keys)
    ensures var d := Tally(Values(order, f));
      && (forall u :: u in keys ==> f(u) in d)
      && (forall k :: k in d ==> 0 < d[k] == Count(keys, f, k))
      && Total(d) == |keys|
  {
    var xs := Values(order, f);
    var d := Tally(xs);
    TallyCounts(xs);
    TotalTally(xs);
    EnumerationSize(order, keys);
    forall u | u in keys ensures f(u) in d {
      var i :| 0 <= i < |order| && order[i] == u;
      ValuesAt(order, f, i);
    }
    forall k | k in d ensures 0 < d[k] == Count(keys, f, k) {
      ValuesCount(order, f, k);
      assert (set u | u in order && f(u) == k) == (set u | u in keys && f(u) == k);
    }
  }

  /** One more step of a walk bumps the tally at its value. */
  lemma TallyStep(order: seq<Id>, f: Id -> nat, i: nat)
    requires i < |order|
    ensures Tally(Values(order[..i + 1], f)) == Bump(Tally(Values(order[..i], f)), f(order[i]))
  {
    assert order[..i + 1][..i] == order[..i];
    var xs := Values(order[..i + 1], f);
    assert xs[..|xs| - 1] == Values(order[..i], f);
  }

  lemma {:induction false} ValuesAt(order: seq<Id>, f: Id -> nat, i: nat)
    requires i < |order|
    ensures Values(order, f)[i] == f(order[i])
    decreases |order|
  {
    if i < |order| - 1 {
      ValuesAt(order[..|order| - 1], f, i);
    }
  }

  // ---------------------------------------------------------------------
  // `degree_distribution`

  /** The degree the metrics give a node: the neighbours whose canonical
      pair is a link. */
  function Degree(links: Links, id: Id, ns: seq<Id>): (n: nat)
    ensures n <= |ns|
    decreases |ns|
  {
    if |ns| == 0 then 0
    else Degree(links, id, ns[..|ns| - 1]) + (if DeterministicLink(id, ns[|ns| - 1]) in links then 1 else 0)
  }

  /** The degree is the full length of the list exactly when every
      neighbour's canonical pair is a link. */
  lemma {:induction false} DegreeFull(links: Links, id: Id, ns: seq<Id>)
    ensures Degree(links, id, ns) == |ns| <==> forall v :: v in ns ==> DeterministicLink(id, v) in links
    decreases |ns|
  {
    if |ns| > 0 {
      var pre, x := ns[..|ns| - 1], ns[|ns| - 1];
      DegreeFull(links, id, pre);
      assert ns == pre + [x];
      forall v ensures v in ns <==> v in pre || v == x {
        assert v in ns <==> v in pre + [x];
      }
    }
  }

  /** The degree of the node stored under `u`, 0 for an id without a node. */
  function DegreeIn(nodes: Nodes, links: Links): Id -> nat
  {
    u => if u in nodes then Degree(links, u, nodes[u].neighbours) else 0
  }

  /** The degrees of the nodes of `order`, in that order. */
  function Degrees(nodes: Nodes, links: Links, order: seq<Id>): seq<nat>
    decreases |order|
  {
    if |order| == 0 then []
    else
      var u := order[|order| - 1];
      Degrees(nodes, links, order[..|order| - 1]) + [if u in nodes then Degree(links, u, nodes[u].neighbours) else 0]
  }

  /** One more step of the walk appends the degree of its node. */
  lemma DegreesStep(nodes: Nodes, links: Links, order: seq<Id>, i: nat)
    requires i < |order| && order[i] in nodes
    ensures Tally(Degrees(nodes, links, order[..i + 1]))
         == Bump(Tally(Degrees(nodes, links, order[..i])), Degree(links, order[i], nodes[order[i]].neighbours))
  {
    assert order[..i + 1][..i] == order[..i];
    var xs := Degrees(nodes, links, order[..i + 1]);
    assert xs[..|xs| - 1] == Degrees(nodes, links, order[..i]);
  }

  lemma {:induction false} DegreesValues(nodes: Nodes, links: Links, order: seq<Id>)
    ensures Degrees(nodes, links, order) == Values(order, DegreeIn(nodes, links))
    decreases |order|
  {
    if |order| > 0 {
      DegreesValues(nodes, links, order[..|order| - 1]);
    }
  }

  /** The inner loop of `degree_distribution`. */
  method NodeDegree(links: Links, id: Id, ns: seq<Id>) returns (degree: nat)
    ensures degree == Degree(links, id, ns)
  {
    degree := 0;
    for i := 0 to |ns|
      invariant degree == Degree(links, id, ns[..i])
    {
      assert ns[..i + 1][..i] == ns[..i];
      if DeterministicLink(id, ns[i]) in links {
        degree := degree + 1;
      }
    }
    assert ns[..|ns|] == ns;
  }

  /** `degree_distribution`, walking the node table in the order `order`:
      for each degree, the number of nodes with it; the counts add up to
      the number of nodes. */
  method DegreeDistribution(nodes: Nodes, links: Links, order: seq<Id>) returns (distribution: Histogram)
    requires IsEnumeration(order, nodes.Keys)
    ensures forall u :: u in nodes ==> DegreeIn(nodes, links)(u) in distribution
    ensures forall k :: k in distribution ==> 0 < distribution[k] == Count(nodes.Keys, DegreeIn(nodes, links), k)
    ensures Total(distribution) == |nodes|
  {
    distribution := map[];
    for i := 0 to |order|
      invariant distribution == Tally(Degrees(nodes, links, order[..i]))
    {
      var id := order[i];
      EnumerationAt(order, nodes.Keys, i);
      var degree := NodeDegree(links, id, nodes[id].neighbours);
      distribution := Bump(distribution, degree);
      DegreesStep(nodes, links, order, i);
    }
    assert order[..|order|] == order;
    DegreeHistogram(nodes, links, order);
  }

  /** The tally of the degrees along a walk of the node table is the
      degree histogram. */
  lemma DegreeHistogram(nodes: Nodes, links: Links, order: seq<Id>)
    requires IsEnumeration(order, nodes.Keys)
    ensures var d := Tally(Degrees(nodes, links, order));
      && (forall u :: u in nodes ==> DegreeIn(nodes, links)(u) in d)
      && (forall k :: k in d ==> 0 < d[k] == Count(nodes.Keys, DegreeIn(nodes, links), k))
      && Total(d) == |nodes|
  {
    DegreesValues(nodes, links, order);
    HistogramOf(order, nodes.Keys, DegreeIn(nodes, links));
  }

  // ---------------------------------------------------------------------
  // `substitute_nodes_distribution`

  /** The number of original nodes a node stands for: the `-`-separated
      pieces of its id. */
  function Substitute(id: Id): (n: nat)
    ensures n >= 1
  {
    |Split(id, '-')|
  }

  /** One piece more than the id has dashes. */
  lemma SubstituteDashes(id: Id)
    ensures Substitute(id) == multiset(id)['-'] + 1
  {
    SplitCount(id, '-');
  }

  /** The id a contraction gives a merged node stands for the nodes of
      both ids it joins. */
  lemma SubstituteContracted(a: Id, b: Id)
    ensures Substitute(ContractedId(a, b)) == Substitute(a) + Substitute(b)
  {
    var d := DeterministicLink(a, b);
    SplitAppend(d.0, d.1, '-');
    assert d == (a, b) || d == (b, a);
  }

  /** An id without a dash stands for one node. */
  lemma SubstitutePlain(id: Id)
    requires '-' !in id
    ensures Substitute(id) == 1
  {
    SubstituteDashes(id);
    assert '-' !in multiset(id);
  }

  /** The merged id of two plain ids, such as `"3761637489-92192237"` of
      the `replace_link_by_node` test, stands for two nodes. */
  lemma SubstituteMerged(a: Id, b: Id)
    requires '-' !in a && '-' !in b
    ensures Substitute(ContractedId(a, b)) == 2
  {
    SubstituteContracted(a, b);
    SubstitutePlain(a);
    SubstitutePlain(b);
  }

  /** `substitute_nodes_distribution`, walking the node table in the order
      `order`: for each substitute count, the number of nodes with it; the
      counts add up to the number of nodes. */
  method SubstituteNodesDistribution(nodes: Nodes, order: seq<Id>) returns (distribution: Histogram)
    requires IsEnumeration(order, nodes.Keys)
    ensures forall u :: u in nodes ==> Substitute(u) in distribution
    ensures forall k :: k in distribution ==> 0 < distribution[k] == Count(nodes.Keys, Substitute, k)
    ensures Total(distribution) == |nodes|
  {
    distribution := map[];
    for i := 0 to |order|
      invariant distribution == Tally(Values(order[..i], Substitute))
    {
      var substitute := |Split(order[i], '-')|;
      distribution := Bump(distribution, substitute);
      TallyStep(order, Substitute, i);
    }
    assert order[..|order|] == order;
    HistogramOf(order, nodes.Keys, Substitute);
  }
}
