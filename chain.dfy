/** What one subdivision of `discretize` (src/discretize.rs) does to a
    well-formed graph: the link becomes a path through fresh synthetic
    nodes, each with exactly its two path neighbours, and the graph stays
    well formed. */
module Chains {
  import opened Wrappers
  import opened Strings
  import opened Utils
  import opened Geo
  import opened Stores
  import opened Discretizer

  /** The path that replaces the link from `src` to `dst` split into
      `part` pieces: the source, synthetic nodes `1 .. part - 1`, the
      target. */
  function Path(src: Id, dst: Id, pair: Link, part: nat): (c: seq<Id>)
    ensures |c| == part + 1
  {
    seq(part + 1, i requires 0 <= i <= part => if i == 0 then src else if i == part then dst else ChainId(pair, i, part))
  }

  /** The link from node `i` of the path back to node `i - 1`. */
  function Back(c: seq<Id>, i: nat): Link
    requires 1 <= i < |c|
  {
    (c[i], c[i - 1])
  }

  /** The link from node `i` of the path on to node `i + 1`. */
  function Fwd(c: seq<Id>, i: nat): Link
    requires i + 1 < |c|
  {
    (c[i], c[i + 1])
  }

  /** The links back along the path from nodes `1 .. k - 1` (short of the
      target). */
  ghost function Backs(c: seq<Id>, k: nat): set<Link>
  {
    set i | 1 <= i < k && i < |c| - 1 :: Back(c, i)
  }

  /** The links on along the path from nodes `1 .. k - 1`. */
  ghost function Fwds(c: seq<Id>, k: nat): set<Link>
  {
    set i | 1 <= i < k && i + 1 < |c| :: Fwd(c, i)
  }

  /** The links the second inner loop has added after turns `1 .. k - 1`. */
  ghost function ChainLinks(c: seq<Id>, k: nat): set<Link>
    requires |c| >= 3
  {
    var p := |c| - 1;
    (if k > 1 then {Fwd(c, 0)} else {}) + (if k >= p then {Back(c, p)} else {}) + Backs(c, k) + Fwds(c, k)
  }

  /** The links turn `k` inserts, in the order it inserts them: the first
      synthetic node is linked from the source, the last from the target,
      and synthetic node `k` to its two path neighbours. */
  function TurnSeq(c: seq<Id>, k: nat): seq<Link>
    requires 1 <= k < |c| - 1
  {
    var p := |c| - 1;
    var own := [Back(c, k)] + [Fwd(c, k)];
    var last := if k == p - 1 then [Back(c, p)] + own else own;
    if k == 1 then [Fwd(c, 0)] + last else last
  }

  /** The same links as a set. */
  function TurnLinks(c: seq<Id>, k: nat): set<Link>
    requires 1 <= k < |c| - 1
  {
    var p := |c| - 1;
    (if k == 1 then {Fwd(c, 0)} else {}) + (if k == p - 1 then {Back(c, p)} else {}) + {Back(c, k), Fwd(c, k)}
  }

  /** The neighbours turns `1 .. k - 1` have given the node at position
      `i` of the path. */
  function Gained(c: seq<Id>, k: nat, i: nat): seq<Id>
    requires |c| >= 3 && i < |c|
  {
    var p := |c| - 1;
    if i == 0 then (if k > 1 then [c[1]] else [])
    else if i == p then (if k >= p then [c[p - 1]] else [])
    else if i < k then [c[i - 1], c[i + 1]]
    else []
  }

  /** No link of `base` touches a synthetic node. */
  ghost predicate Avoids(base: Store, c: seq<Id>)
  {
    forall l, i :: l in base.links && 1 <= i < |c| - 1 ==> l.0 != c[i] && l.1 != c[i]
  }

  /** The synthetic nodes are present, without neighbours. */
  ghost predicate BlankInner(base: Store, c: seq<Id>)
  {
    forall i :: 1 <= i < |c| - 1 ==> c[i] in base.nodes && base.nodes[c[i]].neighbours == []
  }

  /** The graph the second inner loop starts from: both end nodes present,
      the synthetic nodes present without neighbours and on no link. */
  ghost predicate Ready(base: Store, c: seq<Id>)
  {
    && |c| >= 3 && Distinct(c)
    && c[0] in base.nodes && c[|c| - 1] in base.nodes
    && BlankInner(base, c) && Avoids(base, c)
    && IndexInvariant(base) && SlotsLinked(base)
  }

  /** The record of path node `i` after turns `1 .. k - 1`. */
  ghost predicate RowOf(base: Store, c: seq<Id>, k: nat, r: Store, i: nat)
    requires |c| >= 3 && i < |c|
  {
    c[i] in base.nodes && c[i] in r.nodes
    && r.nodes[c[i]] == base.nodes[c[i]].(neighbours := base.nodes[c[i]].neighbours + Gained(c, k, i))
  }

  /** The node records after turns `1 .. k - 1`: only path nodes have
      gained neighbours. */
  ghost predicate RowsAt(base: Store, c: seq<Id>, k: nat, r: Store)
    requires |c| >= 3
  {
    && r.nodes.Keys == base.nodes.Keys
    && (forall w :: w in base.nodes && w !in c ==> r.nodes[w] == base.nodes[w])
    && (forall i :: 0 <= i < |c| ==> RowOf(base, c, k, r, i))
  }

  /** The link table after turns `1 .. k - 1`. */
  ghost predicate LinksAt(base: Store, c: seq<Id>, k: nat, r: Store)
    requires |c| >= 3 && 1 <= k
  {
    && r.links.Keys == base.links.Keys + ChainLinks(c, k)
    && |r.links| == |base.links| + 2 * (k - 1) + (if k > 1 then 1 else 0) + (if k >= |c| - 1 then 1 else 0)
  }

  /** The state of the second inner loop after turns `1 .. k - 1`. */
  ghost predicate Linking(base: Store, c: seq<Id>, k: nat, r: Store)
    requires |c| >= 3
  {
    1 <= k <= |c| - 1 && RowsAt(base, c, k, r) && LinksAt(base, c, k, r) && IndexInvariant(r) && SlotsLinked(r)
  }

  // ---------------------------------------------------------------------
  // Inserting a sequence of links

  /** Every link of `ls` starts at a node of `st`. */
  ghost predicate Sourced(st: Store, ls: seq<Link>)
  {
    forall j :: 0 <= j < |ls| ==> ls[j].0 in st.nodes
  }

  /** No link of `ls` is in the link table of `st`. */
  ghost predicate Fresh(st: Store, ls: seq<Link>)
  {
    forall j :: 0 <= j < |ls| ==> ls[j] !in st.links
  }

  /** `insert_link` of each of `ls` in turn. */
  function Alongside(st: Store, ls: seq<Link>): Store
    requires Sourced(st, ls)
    decreases |ls|
  {
    if |ls| == 0 then st
    else
      Alongside(WithLink(st, ls[0].0, ls[0].1), ls[1..])
  }

  lemma AlongsideCons(st: Store, l: Link, ls: seq<Link>)
    requires l.0 in st.nodes && Sourced(st, ls)
    ensures Sourced(st, [l] + ls)
    ensures Alongside(st, [l] + ls) == Alongside(WithLink(st, l.0, l.1), ls)
  {
    assert ([l] + ls)[1..] == ls;
  }

  /** The targets of the links of `ls` that start at `w`, in order. */
  function Targets(ls: seq<Link>, w: Id): seq<Id>
    decreases |ls|
  {
    if |ls| == 0 then [] else (if ls[0].0 == w then [ls[0].1] else []) + Targets(ls[1..], w)
  }

  /** Inserting links appends each target to its source's list, in order,
      and touches nothing else of a record. */
  lemma {:induction false} AlongsideRecords(st: Store, ls: seq<Link>)
    requires Sourced(st, ls)
    ensures Alongside(st, ls).nodes.Keys == st.nodes.Keys
    ensures forall w :: w in st.nodes ==>
      Alongside(st, ls).nodes[w] == st.nodes[w].(neighbours := st.nodes[w].neighbours + Targets(ls, w))
    decreases |ls|
  {
    if |ls| > 0 {
      var st1 := WithLink(st, ls[0].0, ls[0].1);
      var r := Alongside(st1, ls[1..]);
      assert Alongside(st, ls) == r;
      AlongsideRecords(st1, ls[1..]);
      forall w | w in st.nodes
        ensures r.nodes[w] == st.nodes[w].(neighbours := st.nodes[w].neighbours + Targets(ls, w))
      {
        RecordStep(st, ls, r, w);
      }
    }
  }

  /** One insertion, then the rest, on the record of `w`. */
  lemma RecordStep(st: Store, ls: seq<Link>, r: Store, w: Id)
    requires |ls| > 0 && ls[0].0 in st.nodes && w in st.nodes && w in r.nodes
    requires var st1 := WithLink(st, ls[0].0, ls[0].1);
      r.nodes[w] == st1.nodes[w].(neighbours := st1.nodes[w].neighbours + Targets(ls[1..], w))
    ensures r.nodes[w] == st.nodes[w].(neighbours := st.nodes[w].neighbours + Targets(ls, w))
  {
    var n := st.nodes[w];
    var rest := Targets(ls[1..], w);
    if ls[0].0 == w {
      assert Targets(ls, w) == [ls[0].1] + rest;
      assert WithLink(st, ls[0].0, ls[0].1).nodes[w] == n.(neighbours := n.neighbours + [ls[0].1]);
      assert n.neighbours + [ls[0].1] + rest == n.neighbours + Targets(ls, w);
    } else {
      assert Targets(ls, w) == rest;
      assert WithLink(st, ls[0].0, ls[0].1).nodes[w] == n;
    }
  }

  /** The tail of a sequence of new links is new in the graph after its
      head. */
  lemma FreshTail(st: Store, ls: seq<Link>)
    requires |ls| > 0 && Distinct(ls) && Sourced(st, ls) && Fresh(st, ls)
    ensures Distinct(ls[1..])
    ensures Sourced(WithLink(st, ls[0].0, ls[0].1), ls[1..]) && Fresh(WithLink(st, ls[0].0, ls[0].1), ls[1..])
  {
    var rest := ls[1..];
    forall j | 0 <= j < |rest| ensures rest[j] != ls[0] {
      assert rest[j] == ls[j + 1];
    }
    forall i, j | 0 <= i < j < |rest| ensures rest[i] != rest[j] {
      assert rest[i] == ls[i + 1] && rest[j] == ls[j + 1];
    }
  }

  /** Inserting links adds exactly them to the link table. */
  lemma {:induction false} AlongsideKeys(st: Store, ls: seq<Link>)
    requires Sourced(st, ls)
    ensures Alongside(st, ls).links.Keys == st.links.Keys + Elems(ls)
    decreases |ls|
  {
    if |ls| > 0 {
      var st1 := WithLink(st, ls[0].0, ls[0].1);
      assert Alongside(st, ls) == Alongside(st1, ls[1..]);
      AlongsideKeys(st1, ls[1..]);
      ElemsTail(ls);
    }
  }

  /** Inserting distinct new links adds one table entry for each. */
  lemma {:induction false} AlongsideCount(st: Store, ls: seq<Link>)
    requires Distinct(ls) && Sourced(st, ls) && Fresh(st, ls)
    ensures |Alongside(st, ls).links| == |st.links| + |ls|
    decreases |ls|
  {
    if |ls| > 0 {
      var st1 := WithLink(st, ls[0].0, ls[0].1);
      assert Alongside(st, ls) == Alongside(st1, ls[1..]);
      FreshTail(st, ls);
      AlongsideCount(st1, ls[1..]);
    }
  }

  lemma ElemsTail<T>(xs: seq<T>)
    requires |xs| > 0
    ensures Elems(xs) == {xs[0]} + Elems(xs[1..])
  {
    assert xs == [xs[0]] + xs[1..];
    ElemsCons(xs[0], xs[1..]);
  }

  /** Inserting new links keeps the index invariant and every slot linked. */
  lemma {:induction false} AlongsideIndex(st: Store, ls: seq<Link>)
    requires IndexInvariant(st) && SlotsLinked(st) && Distinct(ls) && Sourced(st, ls) && Fresh(st, ls)
    ensures IndexInvariant(Alongside(st, ls)) && SlotsLinked(Alongside(st, ls))
    decreases |ls|
  {
    if |ls| > 0 {
      InsertLinkKeepsIndex(st, ls[0].0, ls[0].1);
      InsertLinkKeepsSlots(st, ls[0].0, ls[0].1);
      FreshTail(st, ls);
      AlongsideIndex(WithLink(st, ls[0].0, ls[0].1), ls[1..]);
    }
  }

  lemma TargetsCons(l: Link, ls: seq<Link>, w: Id)
    ensures Targets([l] + ls, w) == (if l.0 == w then [l.1] else []) + Targets(ls, w)
  {
    assert ([l] + ls)[1..] == ls;
  }

  lemma {:induction false} TargetsAppend(a: seq<Link>, b: seq<Link>, w: Id)
    ensures Targets(a + b, w) == Targets(a, w) + Targets(b, w)
    decreases |a|
  {
    if |a| == 0 {
      assert a + b == b;
    } else {
      assert (a + b)[1..] == a[1..] + b;
      TargetsAppend(a[1..], b, w);
    }
  }

  // ---------------------------------------------------------------------
  // One turn

  /** Turn `k` of the second inner loop inserts the links of `TurnSeq`. */
  lemma TurnIsStep(r: Store, c: seq<Id>, pair: Link, k: nat)
    requires 1 <= k < |c| - 1 && c[0] in r.nodes && c[|c| - 1] in r.nodes && c[k] in r.nodes
    requires Chained(c, pair)
    ensures Sourced(r, TurnSeq(c, k))
    ensures LinkStep(r, c[0], c[|c| - 1], pair, k, |c| - 1) == Some(Alongside(r, TurnSeq(c, k)))
  {
    var p := |c| - 1;
    assert ChainId(pair, k, p) == c[k];
    assert Previous(c[0], pair, k, p) == c[k - 1];
    assert Next(c[p], pair, k, p) == c[k + 1];
    var r1 := if k == 1 then WithLink(r, c[0], c[1]) else r;
    var r2 := if k == p - 1 then WithLink(r1, c[p], c[k]) else r1;
    var own := [Back(c, k)] + [Fwd(c, k)];
    var last := if k == p - 1 then [Back(c, p)] + own else own;
    AlongsideCons(WithLink(r2, c[k], c[k - 1]), Fwd(c, k), []);
    assert [Fwd(c, k)] + [] == [Fwd(c, k)];
    AlongsideCons(r2, Back(c, k), [Fwd(c, k)]);
    if k == p - 1 {
      AlongsideCons(r1, Back(c, p), own);
    }
    assert Alongside(r1, last) == WithLink(WithLink(r2, c[k], c[k - 1]), c[k], c[k + 1]);
    if k == 1 {
      AlongsideCons(r, Fwd(c, 0), last);
    }
  }

  /** The links of turn `k` are distinct, and are those of `TurnLinks`. */
  lemma TurnDistinct(c: seq<Id>, k: nat)
    requires 1 <= k < |c| - 1 && Distinct(c)
    ensures Distinct(TurnSeq(c, k)) && Elems(TurnSeq(c, k)) == TurnLinks(c, k)
    ensures |TurnSeq(c, k)| == 2 + (if k == 1 then 1 else 0) + (if k == |c| - 2 then 1 else 0)
  {
    var p := |c| - 1;
    assert c[0] != c[p] && c[0] != c[k] && c[p] != c[k] && c[k - 1] != c[k + 1];
  }

  /** What turn `k` appends to the list of path node `i`. */
  lemma TurnTargets(c: seq<Id>, k: nat, i: nat)
    requires 1 <= k < |c| - 1 && i < |c| && Distinct(c)
    ensures Gained(c, k, i) + Targets(TurnSeq(c, k), c[i]) == Gained(c, k + 1, i)
  {
    var p := |c| - 1;
    TurnTargetsUnfold(c, k, c[i]);
    if i == 0 {
      assert c[0] != c[p] && c[0] != c[k];
    } else if i == p {
      assert c[p] != c[0] && c[p] != c[k];
    } else if i == k {
      assert c[k] != c[0] && c[k] != c[p];
    } else {
      assert c[i] != c[0] && c[i] != c[p] && c[i] != c[k];
    }
  }

  /** `Targets` of the turn's links, spelled out. */
  lemma TurnTargetsUnfold(c: seq<Id>, k: nat, w: Id)
    requires 1 <= k < |c| - 1
    ensures var p := |c| - 1;
      Targets(TurnSeq(c, k), w)
      == (if k == 1 && w == c[0] then [c[1]] else []) + (if k == p - 1 && w == c[p] then [c[p - 1]] else [])
         + (if w == c[k] then [c[k - 1], c[k + 1]] else [])
  {
    var p := |c| - 1;
    var own := [Back(c, k)] + [Fwd(c, k)];
    var last := if k == p - 1 then [Back(c, p)] + own else own;
    var t0 := if k == 1 && w == c[0] then [c[1]] else [];
    var tp := if k == p - 1 && w == c[p] then [c[p - 1]] else [];
    var mine := if w == c[k] then [c[k - 1], c[k + 1]] else [];
    OwnTargets(c, k, w);
    assert Targets(last, w) == tp + mine by {
      if k == p - 1 {
        TargetsCons(Back(c, p), own, w);
      } else {
        assert tp + mine == mine;
      }
    }
    assert Targets(TurnSeq(c, k), w) == t0 + (tp + mine) by {
      if k == 1 {
        TargetsCons(Fwd(c, 0), last, w);
      } else {
        assert TurnSeq(c, k) == last;
        assert t0 + (tp + mine) == tp + mine;
      }
    }
    assert t0 + (tp + mine) == t0 + tp + mine;
  }

  /** The targets of synthetic node `k`'s own two links. */
  lemma OwnTargets(c: seq<Id>, k: nat, w: Id)
    requires 1 <= k < |c| - 1
    ensures Targets([Back(c, k)] + [Fwd(c, k)], w) == (if w == c[k] then [c[k - 1], c[k + 1]] else [])
  {
    TargetsCons(Fwd(c, k), [], w);
    assert [Fwd(c, k)] + [] == [Fwd(c, k)];
    TargetsCons(Back(c, k), [Fwd(c, k)], w);
  }

  /** Turn `k` appends nothing to the list of a node off the path. */
  lemma TurnOffPath(c: seq<Id>, k: nat, w: Id)
    requires 1 <= k < |c| - 1 && w !in c
    ensures Targets(TurnSeq(c, k), w) == []
  {
    var p := |c| - 1;
    assert w != c[0] && w != c[p] && w != c[k];
    TurnTargetsUnfold(c, k, w);
  }

  lemma BacksStep(c: seq<Id>, k: nat)
    requires 1 <= k < |c| - 1
    ensures Backs(c, k + 1) == Backs(c, k) + {Back(c, k)}
  {
  }

  lemma FwdsStep(c: seq<Id>, k: nat)
    requires 1 <= k < |c| - 1
    ensures Fwds(c, k + 1) == Fwds(c, k) + {Fwd(c, k)}
  {
  }

  /** The links after turn `k` are those before it and the turn's. */
  lemma ChainLinksStep(c: seq<Id>, k: nat)
    requires 1 <= k < |c| - 1
    ensures ChainLinks(c, k + 1) == ChainLinks(c, k) + TurnLinks(c, k)
  {
    BacksStep(c, k);
    FwdsStep(c, k);
  }

  /** Before turn `k < p` no link the loop has added starts at synthetic
      node `k` or at the target, and before turn 1 there is none at all. */
  lemma NotChainLink(c: seq<Id>, k: nat, s: nat, t: nat)
    requires |c| >= 3 && Distinct(c) && 1 <= k < |c| - 1 && s < |c| && t < |c|
    requires s == k || s == |c| - 1 || k == 1
    ensures (c[s], c[t]) !in ChainLinks(c, k)
  {
    forall i | 1 <= i < k ensures c[i] != c[s] {
    }
  }

  /** A link between path nodes `s` and `t` that touches synthetic node
      `k` and starts at it, at the target, or (in turn 1) at the source is
      not yet present. */
  lemma FreshLink(base: Store, c: seq<Id>, k: nat, r: Store, s: nat, t: nat)
    requires |c| >= 3 && Distinct(c) && 1 <= k < |c| - 1 && Avoids(base, c) && LinksAt(base, c, k, r)
    requires s < |c| && t < |c| && (s == k || t == k) && (s == k || s == |c| - 1 || (k == 1 && s == 0))
    ensures (c[s], c[t]) !in r.links
  {
    NotChainLink(c, k, s, t);
  }

  /** All links of turn `k` are new. */
  lemma TurnFresh(base: Store, c: seq<Id>, k: nat, r: Store)
    requires |c| >= 3 && Distinct(c) && 1 <= k < |c| - 1 && Avoids(base, c) && LinksAt(base, c, k, r)
    ensures k == 1 ==> (c[0], c[1]) !in r.links
    ensures k == |c| - 2 ==> (c[|c| - 1], c[|c| - 2]) !in r.links
    ensures (c[k], c[k - 1]) !in r.links && (c[k], c[k + 1]) !in r.links
  {
    var p := |c| - 1;
    if k == 1 {
      FreshLink(base, c, k, r, 0, 1);
    }
    if k == p - 1 {
      FreshLink(base, c, k, r, p, p - 1);
    }
    FreshLink(base, c, k, r, k, k - 1);
    FreshLink(base, c, k, r, k, k + 1);
  }

  /** Turn `k` keeps the node records of the loop's state. */
  lemma RowsStep(base: Store, c: seq<Id>, k: nat, r: Store)
    requires |c| >= 3 && Distinct(c) && 1 <= k < |c| - 1 && RowsAt(base, c, k, r)
    ensures c[0] in r.nodes && c[|c| - 1] in r.nodes && c[k] in r.nodes
    ensures Sourced(r, TurnSeq(c, k))
    ensures RowsAt(base, c, k + 1, Alongside(r, TurnSeq(c, k)))
  {
    var p := |c| - 1;
    assert RowOf(base, c, k, r, 0) && RowOf(base, c, k, r, p) && RowOf(base, c, k, r, k);
    AlongsideRecords(r, TurnSeq(c, k));
    RowsOffPath(base, c, k, r);
    RowsOnPath(base, c, k, r, k + 1, Alongside(r, TurnSeq(c, k)));
  }

  /** Turn `k` leaves every record off the path as it is. */
  lemma RowsOffPath(base: Store, c: seq<Id>, k: nat, r: Store)
    requires |c| >= 3 && 1 <= k < |c| - 1 && RowsAt(base, c, k, r) && Sourced(r, TurnSeq(c, k))
    ensures forall w :: w in base.nodes && w !in c ==>
      w in Alongside(r, TurnSeq(c, k)).nodes && Alongside(r, TurnSeq(c, k)).nodes[w] == base.nodes[w]
  {
    var ts := TurnSeq(c, k);
    var r' := Alongside(r, ts);
    AlongsideRecords(r, ts);
    forall w | w in base.nodes && w !in c ensures w in r'.nodes && r'.nodes[w] == base.nodes[w] {
      TurnOffPath(c, k, w);
    }
  }

  /** Turn `k` gives each node of the path what `Gained` says. */
  lemma RowsOnPath(base: Store, c: seq<Id>, k: nat, r: Store, k': nat, r': Store)
    requires |c| >= 3 && Distinct(c) && 1 <= k < |c| - 1 && RowsAt(base, c, k, r) && Sourced(r, TurnSeq(c, k))
    requires k' == k + 1 && r' == Alongside(r, TurnSeq(c, k))
    ensures forall i :: 0 <= i < |c| ==> RowOf(base, c, k', r', i)
  {
    AlongsideRecords(r, TurnSeq(c, k));
    forall i | 0 <= i < |c| ensures RowOf(base, c, k', r', i) {
      assert RowOf(base, c, k, r, i);
      RowStep(base, c, k, r, r', i);
    }
  }

  /** Turn `k` keeps the record of path node `i`. */
  lemma RowStep(base: Store, c: seq<Id>, k: nat, r: Store, r': Store, i: nat)
    requires |c| >= 3 && Distinct(c) && 1 <= k < |c| - 1 && i < |c| && RowOf(base, c, k, r, i)
    requires c[i] in r'.nodes
    requires r'.nodes[c[i]] == r.nodes[c[i]].(neighbours := r.nodes[c[i]].neighbours + Targets(TurnSeq(c, k), c[i]))
    ensures RowOf(base, c, k + 1, r', i)
  {
    TurnTargets(c, k, i);
    var b := base.nodes[c[i]].neighbours;
    assert b + Gained(c, k, i) + Targets(TurnSeq(c, k), c[i]) == b + Gained(c, k + 1, i);
  }

  /** The links of turn `k` start at present nodes and are new. */
  lemma TurnSeqFresh(c: seq<Id>, k: nat, r: Store)
    requires 1 <= k < |c| - 1 && c[0] in r.nodes && c[|c| - 1] in r.nodes && c[k] in r.nodes
    requires k == 1 ==> (c[0], c[1]) !in r.links
    requires k == |c| - 2 ==> (c[|c| - 1], c[|c| - 2]) !in r.links
    requires (c[k], c[k - 1]) !in r.links && (c[k], c[k + 1]) !in r.links
    ensures Sourced(r, TurnSeq(c, k)) && Fresh(r, TurnSeq(c, k))
  {
  }

  /** The links of turn `k` are distinct, start at present nodes and are
      new. */
  lemma TurnNew(base: Store, c: seq<Id>, k: nat, r: Store)
    requires |c| >= 3 && Distinct(c) && 1 <= k < |c| - 1 && Avoids(base, c) && LinksAt(base, c, k, r)
    requires c[0] in r.nodes && c[|c| - 1] in r.nodes && c[k] in r.nodes
    ensures Sourced(r, TurnSeq(c, k)) && Fresh(r, TurnSeq(c, k)) && Distinct(TurnSeq(c, k))
  {
    TurnFresh(base, c, k, r);
    TurnSeqFresh(c, k, r);
    TurnDistinct(c, k);
  }

  /** Turn `k` adds its links to the table of the loop's state. */
  lemma LinksKeysStep(base: Store, c: seq<Id>, k: nat, r: Store)
    requires |c| >= 3 && Distinct(c) && 1 <= k < |c| - 1
    requires r.links.Keys == base.links.Keys + ChainLinks(c, k) && Sourced(r, TurnSeq(c, k))
    ensures Alongside(r, TurnSeq(c, k)).links.Keys == base.links.Keys + ChainLinks(c, k + 1)
  {
    TurnDistinct(c, k);
    AlongsideKeys(r, TurnSeq(c, k));
    ChainLinksStep(c, k);
  }

  /** Turn `k` adds two entries to the table, and one more for the source
      in turn 1 and for the target in the last turn. */
  lemma LinksCountStep(base: Store, c: seq<Id>, k: nat, r: Store)
    requires |c| >= 3 && Distinct(c) && 1 <= k < |c| - 1
    requires |r.links| == |base.links| + 2 * (k - 1) + (if k > 1 then 1 else 0) + (if k >= |c| - 1 then 1 else 0)
    requires Sourced(r, TurnSeq(c, k)) && Fresh(r, TurnSeq(c, k)) && Distinct(TurnSeq(c, k))
    ensures |Alongside(r, TurnSeq(c, k)).links|
      == |base.links| + 2 * k + (if k + 1 > 1 then 1 else 0) + (if k + 1 >= |c| - 1 then 1 else 0)
  {
    TurnDistinct(c, k);
    AlongsideCount(r, TurnSeq(c, k));
  }

  /** Turn `k` keeps the link table of the loop's state. */
  lemma LinksStep(base: Store, c: seq<Id>, k: nat, r: Store)
    requires |c| >= 3 && Distinct(c) && 1 <= k < |c| - 1 && LinksAt(base, c, k, r)
    requires Sourced(r, TurnSeq(c, k)) && Fresh(r, TurnSeq(c, k)) && Distinct(TurnSeq(c, k))
    ensures LinksAt(base, c, k + 1, Alongside(r, TurnSeq(c, k)))
  {
    LinksKeysStep(base, c, k, r);
    LinksCountStep(base, c, k, r);
  }

  /** Turn `k` keeps the loop's state. */
  lemma LinkingStep(base: Store, c: seq<Id>, k: nat, r: Store)
    requires Ready(base, c) && Linking(base, c, k, r) && k < |c| - 1
    ensures Sourced(r, TurnSeq(c, k))
    ensures Linking(base, c, k + 1, Alongside(r, TurnSeq(c, k)))
  {
    RowsStep(base, c, k, r);
    TurnNew(base, c, k, r);
    LinksStep(base, c, k, r);
    AlongsideIndex(r, TurnSeq(c, k));
  }

  // ---------------------------------------------------------------------
  // The second inner loop as a whole

  /** Before the first turn the loop's state is the graph it starts from. */
  lemma LinkingStart(base: Store, c: seq<Id>)
    requires Ready(base, c)
    ensures Linking(base, c, 1, base)
  {
    forall i | 0 <= i < |c| ensures RowOf(base, c, 1, base, i) {
      assert Gained(c, 1, i) == [];
      assert base.nodes[c[i]].neighbours + [] == base.nodes[c[i]].neighbours;
    }
    assert Backs(c, 1) == {} && Fwds(c, 1) == {};
    assert ChainLinks(c, 1) == {};
  }

  /** The inner nodes of `c` are the synthetic ids of the chain `pair`. */
  ghost predicate Chained(c: seq<Id>, pair: Link)
  {
    forall i :: 1 <= i < |c| - 1 ==> c[i] == ChainId(pair, i, |c| - 1)
  }

  /** One more turn of the second inner loop keeps it in the state
      `Linking` describes. */
  lemma LinkChainNext(base: Store, c: seq<Id>, pair: Link, k: nat, r: Store) returns (next: Store)
    requires Ready(base, c) && Chained(c, pair) && 2 <= k <= |c| - 1
    requires Linking(base, c, k - 1, r)
    ensures LinkStep(r, c[0], c[|c| - 1], pair, k - 1, |c| - 1) == Some(next)
    ensures Linking(base, c, k, next)
  {
    var p := |c| - 1;
    assert RowOf(base, c, k - 1, r, 0) && RowOf(base, c, k - 1, r, p) && RowOf(base, c, k - 1, r, k - 1);
    TurnIsStep(r, c, pair, k - 1);
    LinkingStep(base, c, k - 1, r);
    next := Alongside(r, TurnSeq(c, k - 1));
    assert k - 1 + 1 == k;
  }

  /** The second inner loop after `k` turns completes and is in the state
      `Linking` describes. */
  lemma {:induction false} LinkChainLinking(base: Store, c: seq<Id>, pair: Link, k: nat) returns (r: Store)
    requires Ready(base, c) && Chained(c, pair) && 1 <= k <= |c| - 1
    ensures LinkChain(base, c[0], c[|c| - 1], pair, |c| - 1, k) == Some(r)
    ensures Linking(base, c, k, r)
    decreases k
  {
    if k == 1 {
      LinkingStart(base, c);
      r := base;
    } else {
      var prev := LinkChainLinking(base, c, pair, k - 1);
      r := LinkChainNext(base, c, pair, k, prev);
    }
  }

  // ---------------------------------------------------------------------
  // Synthetic ids

  /** Different positions give different synthetic ids. */
  /** A synthetic id, spelled out. */
  lemma ChainIdSpelled(pair: Link, i: nat, part: nat)
    ensures ChainId(pair, i, part) == pair.0 + "-" + pair.1 + ":" + NatToString(i) + "/" + NatToString(part)
  {
    var d1 := [pair.0];
    var d2 := d1 + ["-"];
    var d3 := d2 + [pair.1];
    var d4 := d3 + [":"];
    var d5 := d4 + [NatToString(i)];
    var d6 := d5 + ["/"];
    var d7 := d6 + [NatToString(part)];
    assert d7 == [pair.0, "-", pair.1, ":", NatToString(i), "/", NatToString(part)];
    assert d7[..6] == d6 && d6[..5] == d5 && d5[..4] == d4 && d4[..3] == d3 && d3[..2] == d2 && d2[..1] == d1;
    assert d1[..0] == [];
    assert Concat(d1) == "" + pair.0 == pair.0;
    assert Concat(d2) == Concat(d1) + "-";
    assert Concat(d3) == Concat(d2) + pair.1;
    assert Concat(d4) == Concat(d3) + ":";
    assert Concat(d5) == Concat(d4) + NatToString(i);
    assert Concat(d6) == Concat(d5) + "/";
    assert Concat(d7) == Concat(d6) + NatToString(part);
  }

  lemma ChainIdInjective(pair: Link, i: nat, j: nat, part: nat)
    requires i != j
    ensures ChainId(pair, i, part) != ChainId(pair, j, part)
  {
    var pre := pair.0 + "-" + pair.1 + ":";
    var post := "/" + NatToString(part);
    var a, b := NatToString(i), NatToString(j);
    ChainIdSpelled(pair, i, part);
    ChainIdSpelled(pair, j, part);
    assert ChainId(pair, i, part) == pre + a + post;
    assert ChainId(pair, j, part) == pre + b + post;
    if pre + a + post == pre + b + post {
      assert |a| == |b|;
      assert a == (pre + a + post)[|pre|..|pre| + |a|];
      assert b == (pre + b + post)[|pre|..|pre| + |b|];
      NatToStringInjective(i, j);
    }
  }

  /** The ids of synthetic nodes `1 .. i - 1`. */
  ghost function ChainSet(pair: Link, part: nat, i: nat): set<Id>
    decreases i
  {
    if i <= 1 then {} else ChainSet(pair, part, i - 1) + {ChainId(pair, i - 1, part)}
  }

  /** None of the synthetic ids of the chain is in use. */
  ghost predicate ChainFresh(st: Store, pair: Link, part: nat)
  {
    forall j :: 1 <= j < part ==> ChainId(pair, j, part) !in st.nodes
  }

  /** The graph after `i` turns of the first inner loop run on `st`: well
      formed, with the same links, every record of `st` kept and the
      synthetic nodes `1 .. i - 1` added as `ChainNode` builds them. */
  ghost predicate Inserted(st: Store, geo: Geometry, source: Node, target: Node, pair: Link, part: nat, i: nat, r: Store)
  {
    && Wf(r) && r.links == st.links
    && r.nodes.Keys <= st.nodes.Keys + ChainSet(pair, part, i)
    && (forall k :: i <= k < part ==> ChainId(pair, k, part) !in r.nodes)
    && |r.nodes| == |st.nodes| + i - 1
    && (forall u :: u in st.nodes ==> u in r.nodes && r.nodes[u] == st.nodes[u])
    && (forall j :: 1 <= j < i ==>
         ChainId(pair, j, part) in r.nodes && r.nodes[ChainId(pair, j, part)] == ChainNode(geo, source, target, pair, j, part))
  }

  /** One turn of the first inner loop. */
  lemma InsertedStep(st: Store, geo: Geometry, source: Node, target: Node, pair: Link, part: nat, i: nat, prev: Store)
    returns (r: Store)
    requires ChainFresh(st, pair, part) && 2 <= i <= part
    requires Inserted(st, geo, source, target, pair, part, i - 1, prev)
    ensures r == WithNode(prev, ChainNode(geo, source, target, pair, i - 1, part))
    ensures Inserted(st, geo, source, target, pair, part, i, r)
  {
    var node := ChainNode(geo, source, target, pair, i - 1, part);
    InsertNodeKeepsWf(prev, node);
    r := WithNode(prev, node);
    InsertedKeys(st, pair, part, i - 1, prev.nodes, node);
    InsertedRecords(st, geo, source, target, pair, part, i - 1, prev.nodes);
    assert i - 1 + 1 == i;
  }

  /** The keys after one more turn of the first inner loop. */
  lemma InsertedKeys(st: Store, pair: Link, part: nat, i: nat, m: map<Id, Node>, node: Node)
    requires 1 <= i < part && node.id == ChainId(pair, i, part)
    requires m.Keys <= st.nodes.Keys + ChainSet(pair, part, i)
    requires forall k :: i <= k < part ==> ChainId(pair, k, part) !in m
    requires |m| == |st.nodes| + i - 1
    ensures var m' := m[node.id := node];
      && m'.Keys <= st.nodes.Keys + ChainSet(pair, part, i + 1)
      && (forall k :: i + 1 <= k < part ==> ChainId(pair, k, part) !in m')
      && |m'| == |st.nodes| + i
  {
    forall k | i + 1 <= k < part ensures ChainId(pair, k, part) != node.id {
      ChainIdInjective(pair, i, k, part);
    }
  }

  /** The records after one more turn of the first inner loop. */
  lemma InsertedRecords(st: Store, geo: Geometry, source: Node, target: Node, pair: Link, part: nat, i: nat, m: map<Id, Node>)
    requires ChainFresh(st, pair, part) && 1 <= i < part
    requires forall u :: u in st.nodes ==> u in m && m[u] == st.nodes[u]
    requires forall j :: 1 <= j < i ==>
      ChainId(pair, j, part) in m && m[ChainId(pair, j, part)] == ChainNode(geo, source, target, pair, j, part)
    ensures var m' := m[ChainId(pair, i, part) := ChainNode(geo, source, target, pair, i, part)];
      && (forall u :: u in st.nodes ==> u in m' && m'[u] == st.nodes[u])
      && (forall j :: 1 <= j < i + 1 ==>
           ChainId(pair, j, part) in m' && m'[ChainId(pair, j, part)] == ChainNode(geo, source, target, pair, j, part))
  {
    ChainRecordsStep(m, geo, source, target, pair, part, i);
  }

  /** The first inner loop after `i` turns: the synthetic nodes `1 .. i - 1`
      added, nothing else changed, the graph still well formed. */
  lemma {:induction false} InsertChainFacts(st: Store, geo: Geometry, source: Node, target: Node, pair: Link, part: nat, i: nat)
    returns (r: Store)
    requires Wf(st) && ChainFresh(st, pair, part) && 1 <= i <= part
    ensures InsertChain(st, geo, source, target, pair, part, i) == r
    ensures Inserted(st, geo, source, target, pair, part, i, r)
    decreases i
  {
    if i == 1 {
      r := st;
    } else {
      var prev := InsertChainFacts(st, geo, source, target, pair, part, i - 1);
      r := InsertedStep(st, geo, source, target, pair, part, i, prev);
    }
  }

  /** Adding synthetic node `i` keeps the records of nodes `1 .. i - 1`. */
  lemma ChainRecordsStep(m: map<Id, Node>, geo: Geometry, source: Node, target: Node, pair: Link, part: nat, i: nat)
    requires forall j :: 1 <= j < i ==>
      ChainId(pair, j, part) in m && m[ChainId(pair, j, part)] == ChainNode(geo, source, target, pair, j, part)
    ensures var m' := m[ChainId(pair, i, part) := ChainNode(geo, source, target, pair, i, part)];
      forall j :: 1 <= j <= i ==> m'[ChainId(pair, j, part)] == ChainNode(geo, source, target, pair, j, part)
  {
    forall j | 1 <= j < i ensures ChainId(pair, j, part) != ChainId(pair, i, part) {
      ChainIdInjective(pair, j, i, part);
    }
  }


  // ---------------------------------------------------------------------
  // The links of a path

  /** The links from each node of the path on to the next. */
  ghost function Steps(c: seq<Id>): set<Link>
  {
    set i | 0 <= i < |c| - 1 :: Fwd(c, i)
  }

  /** The links from each node of the path back to the one before it. */
  ghost function Returns(c: seq<Id>): set<Link>
  {
    set i | 1 <= i < |c| :: Back(c, i)
  }

  /** The links along a path, in both directions. */
  ghost function PathLinks(c: seq<Id>): set<Link>
  {
    Steps(c) + Returns(c)
  }

  /** After its last turn the second inner loop has added exactly the links
      along the path, in both directions. */
  lemma ChainLinksComplete(c: seq<Id>)
    requires |c| >= 3
    ensures ChainLinks(c, |c| - 1) == PathLinks(c)
  {
    var p := |c| - 1;
    forall m | m in PathLinks(c) ensures m in ChainLinks(c, p) {
      if m in Steps(c) {
        var i :| 0 <= i < p && m == Fwd(c, i);
        if i > 0 { assert m in Fwds(c, p); }
      } else {
        var i :| 1 <= i <= p && m == Back(c, i);
        if i < p { assert m in Backs(c, p); }
      }
    }
    forall m | m in ChainLinks(c, p) ensures m in PathLinks(c) {
      if m in Backs(c, p) {
        var i :| 1 <= i < p && m == Back(c, i);
        assert m in Returns(c);
      } else if m in Fwds(c, p) {
        var i :| 1 <= i < p && m == Fwd(c, i);
        assert m in Steps(c);
      } else if m == Fwd(c, 0) {
        assert m in Steps(c);
      } else {
        assert m == Back(c, p) && m in Returns(c);
      }
    }
  }

  /** The links along a path come in both directions, never join a node to
      itself when the path's nodes are distinct, and do not join its two
      ends when it has an inner node. */
  lemma PathLinksShape(c: seq<Id>)
    requires |c| >= 3 && Distinct(c)
    ensures forall m :: m in PathLinks(c) ==> (m.1, m.0) in PathLinks(c) && m.0 != m.1
    ensures (c[0], c[|c| - 1]) !in PathLinks(c) && (c[|c| - 1], c[0]) !in PathLinks(c)
  {
    forall m | m in PathLinks(c) ensures (m.1, m.0) in PathLinks(c) && m.0 != m.1 {
      if m in Steps(c) {
        var i :| 0 <= i < |c| - 1 && m == Fwd(c, i);
        assert (m.1, m.0) == Back(c, i + 1);
      } else {
        var i :| 1 <= i < |c| && m == Back(c, i);
        assert (m.1, m.0) == Fwd(c, i - 1);
      }
    }
    var p := |c| - 1;
    forall i | 0 <= i < p ensures Fwd(c, i) != (c[0], c[p]) && Fwd(c, i) != (c[p], c[0]) {
      assert c[i] != c[p];
      if i == 0 { assert c[1] != c[p]; }
    }
    forall i | 1 <= i <= p ensures Back(c, i) != (c[0], c[p]) && Back(c, i) != (c[p], c[0]) {
      assert c[i] != c[0];
      if i == p { assert c[p - 1] != c[0]; }
    }
  }

  // ---------------------------------------------------------------------
  // One subdivision

  /** The number of pieces the turn for link `l` splits it into. */
  function PartsOf(st: Store, geo: Geometry, delta: real, l: Link): nat
    requires l.0 in st.nodes && l.1 in st.nodes
  {
    Parts(Distance(geo, st.nodes[l.0], st.nodes[l.1]), delta)
  }

  /** What the turn for link `l` needs in order to subdivide it without
      clashing with existing ids: a well-formed graph, the link present, at
      least two pieces, and synthetic ids not yet in use. */
  ghost predicate Splits(st: Store, geo: Geometry, delta: real, l: Link)
  {
    && Wf(st) && l in st.links && l.0 in st.nodes && l.1 in st.nodes
    && PartsOf(st, geo, delta, l) > 1
    && ChainFresh(st, DeterministicLink(l.0, l.1), PartsOf(st, geo, delta, l))
  }

  /** The path that replaces link `l`. */
  function PathOf(st: Store, geo: Geometry, delta: real, l: Link): seq<Id>
    requires l.0 in st.nodes && l.1 in st.nodes
  {
    Path(l.0, l.1, DeterministicLink(l.0, l.1), PartsOf(st, geo, delta, l))
  }

  /** The turn for a link it splits removes the link in both directions and
      runs the two inner loops. */
  lemma SubdivideIsChain(st: Store, geo: Geometry, delta: real, l: Link)
    requires Splits(st, geo, delta, l)
    ensures PairRemovable(st, l.0, l.1)
    ensures var pair, part := DeterministicLink(l.0, l.1), PartsOf(st, geo, delta, l);
      Subdivide(st, geo, delta, l)
      == LinkChain(InsertChain(Unlink(st, l.0, l.1), geo, st.nodes[l.0], st.nodes[l.1], pair, part, part), l.0, l.1, pair, part, part)
  {
    assert (l.1, l.0) in st.links;
    UnlinkPairWf(st, l.0, l.1);
    assert st.nodes[l.0].id == l.0 && st.nodes[l.1].id == l.1;
  }

  /** The path's nodes are distinct, and its inner nodes are the synthetic
      ids. */
  lemma PathDistinct(st: Store, geo: Geometry, delta: real, l: Link)
    requires Splits(st, geo, delta, l)
    ensures var c := PathOf(st, geo, delta, l);
      && Distinct(c) && |c| >= 3 && c[0] == l.0 && c[|c| - 1] == l.1
      && |c| - 1 == PartsOf(st, geo, delta, l)
      && Chained(c, DeterministicLink(l.0, l.1))
  {
    var c := PathOf(st, geo, delta, l);
    var p := |c| - 1;
    var pair := DeterministicLink(l.0, l.1);
    assert l.0 != l.1;
    forall i, j | 0 <= i < j < |c| ensures c[i] != c[j] {
      if 1 <= i && j < p {
        ChainIdInjective(pair, i, j, p);
      } else if 1 <= i {
        assert c[i] !in st.nodes;
      } else if j < p {
        assert c[j] !in st.nodes;
      }
    }
  }

  /** The graph after the link's removal and the first inner loop. */
  lemma BaseFacts(st: Store, geo: Geometry, delta: real, l: Link) returns (base: Store)
    requires Splits(st, geo, delta, l)
    ensures PairRemovable(st, l.0, l.1)
    ensures var pair, part := DeterministicLink(l.0, l.1), PartsOf(st, geo, delta, l);
      var st0 := Unlink(st, l.0, l.1);
      && base == InsertChain(st0, geo, st.nodes[l.0], st.nodes[l.1], pair, part, part)
      && Inserted(st0, geo, st.nodes[l.0], st.nodes[l.1], pair, part, part, base)
      && st0.links.Keys == st.links.Keys - {l, (l.1, l.0)}
      && st0.nodes.Keys == st.nodes.Keys
  {
    UnlinkPairWf(st, l.0, l.1);
    var st0 := Unlink(st, l.0, l.1);
    var pair := DeterministicLink(l.0, l.1);
    var part := PartsOf(st, geo, delta, l);
    base := InsertChainFacts(st0, geo, st.nodes[l.0], st.nodes[l.1], pair, part, part);
  }

  /** The synthetic ids of a chain lie on its path. */
  lemma {:induction false} ChainSetOnPath(c: seq<Id>, pair: Link, i: nat)
    requires |c| >= 3 && Chained(c, pair) && i <= |c| - 1
    ensures ChainSet(pair, |c| - 1, i) <= Elems(c)
    decreases i
  {
    if i > 1 {
      ChainSetOnPath(c, pair, i - 1);
      assert c[i - 1] == ChainId(pair, i - 1, |c| - 1);
    }
  }

  /** After the first inner loop the nodes are those of `st` and those of
      the path. */
  lemma BaseKeys(st: Store, st0: Store, geo: Geometry, source: Node, target: Node, c: seq<Id>, pair: Link, p: nat, base: Store)
    requires |c| == p + 1 && p >= 2 && Chained(c, pair) && c[0] in st.nodes && c[p] in st.nodes
    requires st0.nodes.Keys == st.nodes.Keys
    requires Inserted(st0, geo, source, target, pair, p, p, base)
    ensures base.nodes.Keys == st.nodes.Keys + Elems(c)
  {
    ChainSetOnPath(c, pair, p);
    forall x | x in Elems(c) ensures x in base.nodes {
      var i :| 0 <= i < |c| && c[i] == x;
      if 1 <= i < p {
        assert c[i] == ChainId(pair, i, p);
      }
    }
  }

  /** The graph after the first inner loop is where the second inner loop
      starts from. */
  lemma BaseReady(st: Store, st0: Store, geo: Geometry, source: Node, target: Node, l: Link, c: seq<Id>, pair: Link, p: nat, base: Store)
    requires Wf(st) && l in st.links && |c| == p + 1 && p >= 2 && Distinct(c) && Chained(c, pair)
    requires c[0] == l.0 && c[p] == l.1 && ChainFresh(st, pair, p)
    requires st0.links.Keys <= st.links.Keys && st0.nodes.Keys == st.nodes.Keys
    requires Inserted(st0, geo, source, target, pair, p, p, base)
    ensures Ready(base, c)
  {
    assert (l.1, l.0) in st.links;
    forall i | 1 <= i < p ensures c[i] in base.nodes && base.nodes[c[i]].neighbours == [] {
      assert c[i] == ChainId(pair, i, p);
    }
    forall m, i | m in base.links && 1 <= i < p ensures m.0 != c[i] && m.1 != c[i] {
      assert c[i] == ChainId(pair, i, p) && c[i] !in st.nodes;
      assert m in st.links && (m.1, m.0) in st.links;
    }
  }

  /** The turn for a link it splits, as the two inner loops: the path `c`
      of `part` pieces that replaces the link, the graph `base` the second
      loop starts from, and the state `r` it ends in. */
  lemma SubdivideLinking(st: Store, geo: Geometry, delta: real, l: Link)
    returns (c: seq<Id>, pair: Link, part: nat, base: Store, r: Store)
    requires Splits(st, geo, delta, l)
    ensures PairRemovable(st, l.0, l.1)
    ensures c == PathOf(st, geo, delta, l) && pair == DeterministicLink(l.0, l.1) && part == PartsOf(st, geo, delta, l)
    ensures Subdivide(st, geo, delta, l) == Some(r)
    ensures |c| == part + 1 && part >= 2 && Distinct(c) && c[0] == l.0 && c[part] == l.1 && Chained(c, pair)
    ensures Ready(base, c) && Linking(base, c, part, r)
    ensures Wf(base) && base.links.Keys == st.links.Keys - {l, (l.1, l.0)}
    ensures base.nodes.Keys == st.nodes.Keys + Elems(c)
    ensures |base.nodes| == |st.nodes| + part - 1
    ensures forall u :: u in st.nodes ==> u in base.nodes && base.nodes[u] == Unlink(st, l.0, l.1).nodes[u]
    ensures forall i :: 1 <= i < part ==>
      c[i] in base.nodes && base.nodes[c[i]] == ChainNode(geo, st.nodes[l.0], st.nodes[l.1], pair, i, part)
  {
    c := PathOf(st, geo, delta, l);
    pair := DeterministicLink(l.0, l.1);
    part := PartsOf(st, geo, delta, l);
    base := BaseFacts(st, geo, delta, l);
    var st0 := Unlink(st, l.0, l.1);
    PathDistinct(st, geo, delta, l);
    BaseReady(st, st0, geo, st.nodes[l.0], st.nodes[l.1], l, c, pair, part, base);
    BaseKeys(st, st0, geo, st.nodes[l.0], st.nodes[l.1], c, pair, part, base);
    forall i | 1 <= i < part
      ensures c[i] in base.nodes && base.nodes[c[i]] == ChainNode(geo, st.nodes[l.0], st.nodes[l.1], pair, i, part)
    {
      assert c[i] == ChainId(pair, i, part);
    }
    r := LinkChainLinking(base, c, pair, part);
    SubdivideIsChain(st, geo, delta, l);
  }

  // ---------------------------------------------------------------------
  // What one subdivision does

  /** A subdivision keeps the graph well formed: the neighbour lists and the
      link table still describe the same simple undirected graph. */
  lemma SubdivideKeepsWf(st: Store, geo: Geometry, delta: real, l: Link)
    requires Splits(st, geo, delta, l)
    ensures Subdivide(st, geo, delta, l).Some?
    ensures Wf(Subdivide(st, geo, delta, l).value)
  {
    var c, pair, part, base, r := SubdivideLinking(st, geo, delta, l);
    ChainLinksComplete(c);
    PathLinksShape(c);
    forall m | m in r.links ensures (m.1, m.0) in r.links && m.0 != m.1 {
      if m in base.links {
        assert (m.1, m.0) in base.links;
      }
    }
    forall w | w in r.nodes ensures r.nodes[w].id == w {
      if w in c {
        var i :| 0 <= i < |c| && c[i] == w;
        assert RowOf(base, c, part, r, i);
      }
    }
  }

  /** Two distinct members taken out of a set leave two fewer. */
  lemma RemovePairCount(a: set<Link>, l: Link, m: Link)
    requires l in a && m in a && l != m
    ensures |a - {l, m}| == |a| - 2
  {
    assert a == (a - {l, m}) + {l, m};
  }

  /** The node and link tables at the end of the second inner loop. */
  lemma ShapeAtEnd(st: Store, l: Link, c: seq<Id>, base: Store, r: Store)
    requires |c| >= 3 && Linking(base, c, |c| - 1, r)
    requires l in st.links && (l.1, l.0) in st.links && l.0 != l.1
    requires base.links.Keys == st.links.Keys - {l, (l.1, l.0)}
    ensures r.nodes.Keys == base.nodes.Keys && |r.nodes| == |base.nodes|
    ensures r.links.Keys == st.links.Keys - {l, (l.1, l.0)} + PathLinks(c)
    ensures |r.links| == |st.links| + 2 * (|c| - 2)
  {
    ChainLinksComplete(c);
    RemovePairCount(st.links.Keys, l, (l.1, l.0));
    assert |base.links| == |base.links.Keys|;
  }

  /** A subdivision into `part` pieces adds the `part - 1` synthetic nodes
      of the path and replaces the link, in both directions, by the links
      along the path, in both directions: two more links per synthetic
      node. */
  lemma SubdivideShape(st: Store, geo: Geometry, delta: real, l: Link)
    requires Splits(st, geo, delta, l)
    ensures Subdivide(st, geo, delta, l).Some?
    ensures var r, c, part := Subdivide(st, geo, delta, l).value, PathOf(st, geo, delta, l), PartsOf(st, geo, delta, l);
      && r.nodes.Keys == st.nodes.Keys + Elems(c)
      && r.links.Keys == st.links.Keys - {l, (l.1, l.0)} + PathLinks(c)
      && |r.nodes| == |st.nodes| + part - 1
      && |r.links| == |st.links| + 2 * (part - 1)
  {
    var c, pair, part, base, r := SubdivideLinking(st, geo, delta, l);
    assert (l.1, l.0) in st.links && l.0 != l.1;
    ShapeAtEnd(st, l, c, base, r);
  }

  /** The synthetic nodes' records at the end of the second inner loop. */
  lemma InnerAtEnd(geo: Geometry, source: Node, target: Node, pair: Link, part: nat, base: Store, c: seq<Id>, r: Store)
    requires |c| == part + 1 && part >= 2 && Chained(c, pair) && RowsAt(base, c, part, r)
    requires forall i :: 1 <= i < part ==>
      c[i] in base.nodes && base.nodes[c[i]] == ChainNode(geo, source, target, pair, i, part)
    ensures forall i :: 1 <= i < part ==>
      && c[i] == ChainId(pair, i, part) && c[i] in r.nodes
      && r.nodes[c[i]] == ChainNode(geo, source, target, pair, i, part).(neighbours := [c[i - 1], c[i + 1]])
  {
    forall i | 1 <= i < part
      ensures c[i] == ChainId(pair, i, part) && c[i] in r.nodes
      ensures r.nodes[c[i]] == ChainNode(geo, source, target, pair, i, part).(neighbours := [c[i - 1], c[i + 1]])
    {
      assert RowOf(base, c, part, r, i);
      assert [] + [c[i - 1], c[i + 1]] == [c[i - 1], c[i + 1]];
    }
  }

  /** Synthetic node `i` of a subdivision is `ChainNode`'s node (at fraction
      `i / part` of the way along the link) whose neighbours are exactly the
      nodes before and after it on the path, in that order. */
  lemma SubdivideChainNodes(st: Store, geo: Geometry, delta: real, l: Link)
    requires Splits(st, geo, delta, l)
    ensures Subdivide(st, geo, delta, l).Some?
    ensures var r, c, part := Subdivide(st, geo, delta, l).value, PathOf(st, geo, delta, l), PartsOf(st, geo, delta, l);
      forall i :: 1 <= i < part ==>
        && c[i] == ChainId(DeterministicLink(l.0, l.1), i, part) && c[i] in r.nodes
        && r.nodes[c[i]] == ChainNode(geo, st.nodes[l.0], st.nodes[l.1], DeterministicLink(l.0, l.1), i, part).(neighbours := [c[i - 1], c[i + 1]])
  {
    var c, pair, part, base, r := SubdivideLinking(st, geo, delta, l);
    InnerAtEnd(geo, st.nodes[l.0], st.nodes[l.1], pair, part, base, c, r);
  }

  /** The end nodes' records at the end of the second inner loop, and those
      of the nodes off the path. */
  lemma EndsAtEnd(st: Store, st0: Store, pair: Link, part: nat, c: seq<Id>, base: Store, r: Store)
    requires |c| == part + 1 && part >= 2 && Chained(c, pair) && ChainFresh(st, pair, part)
    requires RowsAt(base, c, part, r)
    requires c[0] in st.nodes && c[part] in st.nodes && st0.nodes.Keys == st.nodes.Keys
    requires forall u :: u in st.nodes ==> u in base.nodes && base.nodes[u] == st0.nodes[u]
    ensures var u, v := c[0], c[part];
      && u in r.nodes && v in r.nodes
      && r.nodes[u] == st0.nodes[u].(neighbours := st0.nodes[u].neighbours + [c[1]])
      && r.nodes[v] == st0.nodes[v].(neighbours := st0.nodes[v].neighbours + [c[part - 1]])
    ensures forall w :: w in st.nodes && w != c[0] && w != c[part] ==> w in r.nodes && r.nodes[w] == st0.nodes[w]
  {
    assert RowOf(base, c, part, r, 0) && RowOf(base, c, part, r, part);
    forall w | w in st.nodes && w != c[0] && w != c[part] ensures w in r.nodes && r.nodes[w] == st0.nodes[w] {
      OffPath(st, c, pair, w);
    }
  }

  /** No synthetic id of a subdivision is a node of the graph it starts
      from. */
  lemma OffPath(st: Store, c: seq<Id>, pair: Link, w: Id)
    requires |c| >= 3 && Chained(c, pair) && ChainFresh(st, pair, |c| - 1)
    requires w in st.nodes && w != c[0] && w != c[|c| - 1]
    ensures w !in c
  {
    forall i | 0 <= i < |c| ensures c[i] != w {
      if 1 <= i < |c| - 1 {
        assert c[i] == ChainId(pair, i, |c| - 1);
      }
    }
  }

  /** A subdivision leaves every node off the path as it was, and trades in
      each end node's list the other end for its neighbour on the path,
      keeping the list's length. */
  lemma SubdivideEnds(st: Store, geo: Geometry, delta: real, l: Link)
    requires Splits(st, geo, delta, l)
    ensures Subdivide(st, geo, delta, l).Some?
    ensures var r, c := Subdivide(st, geo, delta, l).value, PathOf(st, geo, delta, l);
      var u, v, p := l.0, l.1, |c| - 1;
      && u in r.nodes && v in r.nodes
      && r.nodes[u] == st.nodes[u].(neighbours := r.nodes[u].neighbours)
      && r.nodes[v] == st.nodes[v].(neighbours := r.nodes[v].neighbours)
      && |r.nodes[u].neighbours| == |st.nodes[u].neighbours|
      && |r.nodes[v].neighbours| == |st.nodes[v].neighbours|
      && Elems(r.nodes[u].neighbours) == Elems(st.nodes[u].neighbours) - {v} + {c[1]}
      && Elems(r.nodes[v].neighbours) == Elems(st.nodes[v].neighbours) - {u} + {c[p - 1]}
      && (forall w :: w in st.nodes && w != u && w != v ==> w in r.nodes && r.nodes[w] == st.nodes[w])
  {
    var c, pair, part, base, r := SubdivideLinking(st, geo, delta, l);
    var u, v := l.0, l.1;
    UnlinkPairLists(st, u, v);
    UnlinkPairWf(st, u, v);
    var st0 := Unlink(st, u, v);
    EndsAtEnd(st, st0, pair, part, c, base, r);
    ElemsSnoc(st0.nodes[u].neighbours, c[1]);
    ElemsSnoc(st0.nodes[v].neighbours, c[part - 1]);
  }

  /** After a subdivision neither direction of the link is present, so the
      turns for the link, and for its reverse later in the same sweep,
      leave the graph as it is: each undirected link is subdivided at most
      once. */
  lemma SubdivideOnce(st: Store, geo: Geometry, delta: real, l: Link)
    requires Splits(st, geo, delta, l)
    ensures Subdivide(st, geo, delta, l).Some?
    ensures var r := Subdivide(st, geo, delta, l).value;
      && l !in r.links && (l.1, l.0) !in r.links
      && Subdivide(r, geo, delta, l) == Some(r) && Subdivide(r, geo, delta, (l.1, l.0)) == Some(r)
  {
    var c, pair, part, base, r := SubdivideLinking(st, geo, delta, l);
    ChainLinksComplete(c);
    PathLinksShape(c);
  }

  // ---------------------------------------------------------------------
  // A whole sweep

  /** The turn for `l` on `st` finds no synthetic id in use when it splits
      the link. */
  ghost predicate Unclashing(st: Store, geo: Geometry, delta: real, l: Link)
  {
    (l in st.links && (l.1, l.0) in st.links && l.0 in st.nodes && l.1 in st.nodes && PartsOf(st, geo, delta, l) > 1)
    ==> ChainFresh(st, DeterministicLink(l.0, l.1), PartsOf(st, geo, delta, l))
  }

  /** Every turn of the sweep over `order` finds its synthetic ids unused. */
  ghost predicate UnclashingAll(st: Store, geo: Geometry, delta: real, order: seq<Link>)
    decreases |order|
  {
    |order| == 0 ||
    (UnclashingAll(st, geo, delta, order[..|order| - 1]) &&
     var prev := SubdivideAll(st, geo, delta, order[..|order| - 1]);
     prev.Some? ==> Unclashing(prev.value, geo, delta, order[|order| - 1]))
  }

  /** On a well-formed graph, a turn that finds its synthetic ids unused
      completes and keeps the graph well formed. */
  lemma SubdivideWf(st: Store, geo: Geometry, delta: real, l: Link)
    requires Wf(st) && Unclashing(st, geo, delta, l)
    ensures Subdivide(st, geo, delta, l).Some?
    ensures Wf(Subdivide(st, geo, delta, l).value)
  {
    if l in st.links && (l.1, l.0) in st.links {
      assert l.0 in st.nodes && l.1 in st.nodes;
      if PartsOf(st, geo, delta, l) > 1 {
        SubdivideKeepsWf(st, geo, delta, l);
      }
    }
  }

  /** On a well-formed graph, a sweep whose turns find their synthetic ids
      unused completes (so `Discretize` may run) and keeps the graph well
      formed. */
  lemma {:induction false} SubdivideAllWf(st: Store, geo: Geometry, delta: real, order: seq<Link>)
    requires Wf(st) && UnclashingAll(st, geo, delta, order)
    ensures SubdivideAll(st, geo, delta, order).Some?
    ensures Wf(SubdivideAll(st, geo, delta, order).value)
    decreases |order|
  {
    if |order| > 0 {
      var pre := order[..|order| - 1];
      SubdivideAllWf(st, geo, delta, pre);
      SubdivideWf(SubdivideAll(st, geo, delta, pre).value, geo, delta, order[|order| - 1]);
    }
  }
  /** The synthetic nodes the turn for `l` adds: `part - 1` when it splits
      the link, none when it skips it. */
  function Gain(st: Store, geo: Geometry, delta: real, l: Link): nat
  {
    if l in st.links && (l.1, l.0) in st.links && l.0 in st.nodes && l.1 in st.nodes
       && PartsOf(st, geo, delta, l) > 1
    then PartsOf(st, geo, delta, l) - 1
    else 0
  }

  /** The synthetic nodes the pass over `order` adds, turn by turn. */
  function Growth(st: Store, geo: Geometry, delta: real, order: seq<Link>): nat
    decreases |order|
  {
    if |order| == 0 then 0
    else
      match SubdivideAll(st, geo, delta, order[..|order| - 1])
      case None => 0
      case Some(prev) =>
        Growth(st, geo, delta, order[..|order| - 1]) + Gain(prev, geo, delta, order[|order| - 1])
  }

  /** On a well-formed graph, a turn that finds its ids unused adds `Gain`
      nodes and twice as many links; a turn that adds none leaves the graph
      as it is. */
  lemma SubdivideGrowth(st: Store, geo: Geometry, delta: real, l: Link)
    requires Wf(st) && Unclashing(st, geo, delta, l)
    ensures Subdivide(st, geo, delta, l).Some?
    ensures var r, n := Subdivide(st, geo, delta, l).value, Gain(st, geo, delta, l);
      && |r.nodes| == |st.nodes| + n
      && |r.links| == |st.links| + 2 * n
      && (n == 0 <==> r == st)
  {
    if l in st.links && (l.1, l.0) in st.links {
      assert l.0 in st.nodes && l.1 in st.nodes;
      if PartsOf(st, geo, delta, l) > 1 {
        SubdivideShape(st, geo, delta, l);
      }
    }
  }

  /** On a well-formed graph, a pass whose every turn finds its ids unused
      adds `Growth` synthetic nodes in all, `part - 1` for each link it
      splits, and twice as many directed links: one more undirected link
      per synthetic node. */
  lemma {:induction false} SubdivideAllGrowth(st: Store, geo: Geometry, delta: real, order: seq<Link>)
    requires Wf(st) && UnclashingAll(st, geo, delta, order)
    ensures SubdivideAll(st, geo, delta, order).Some?
    ensures var r, n := SubdivideAll(st, geo, delta, order).value, Growth(st, geo, delta, order);
      && |r.nodes| == |st.nodes| + n
      && |r.links| == |st.links| + 2 * n
    decreases |order|
  {
    if |order| > 0 {
      var pre := order[..|order| - 1];
      SubdivideAllGrowth(st, geo, delta, pre);
      SubdivideAllWf(st, geo, delta, pre);
      SubdivideGrowth(SubdivideAll(st, geo, delta, pre).value, geo, delta, order[|order| - 1]);
    }
  }
}
