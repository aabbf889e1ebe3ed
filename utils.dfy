/** The shared node record, the canonical ordering of an id pair, and the
    record loader that builds the `(nodes, links)` pair used by the
    metrics (src/utils.rs). */
module Utils {
  import opened Wrappers
  import opened Strings

  /** Node and link identifiers are the textual ids of the input. */
  type Id = string

  /** A directed link `(source, target)`. */
  type Link = (Id, Id)

  /** A node keeps its coordinates as the text it was read from; only
      `neighbours` changes after creation. */
  datatype Node = Node(id: Id, longitude: string, latitude: string, neighbours: seq<Id>)

  /** The number of values of a `u32`. */
  const U32Modulus: nat := 0x1_0000_0000

  /** The field separator of the record format, U+241F. */
  const Separator: char := '\U{241F}'

  /** The fields of one record line. */
  function Fields(line: string, sep: char): seq<string>
  {
    Split(line, sep)
  }

  /** `deterministic_link`: the pair ordered lexicographically, smaller first. */
  function DeterministicLink(source: Id, target: Id): (r: Link)
    ensures multiset{r.0, r.1} == multiset{source, target}
    ensures !Less(r.1, r.0)
  {
    LessAsymmetric(source, target);
    LessTotal(source, target);
    if Less(source, target) then (source, target) else (target, source)
  }

  lemma DeterministicLinkSymmetric(s: Id, t: Id)
    ensures DeterministicLink(s, t) == DeterministicLink(t, s)
  {
    LessAsymmetric(s, t);
    LessTotal(s, t);
  }

  lemma DeterministicLinkIdempotent(s: Id, t: Id)
    ensures var r := DeterministicLink(s, t); DeterministicLink(r.0, r.1) == r
  {
    var r := DeterministicLink(s, t);
    LessTotal(r.0, r.1);
  }

  type Nodes = map<Id, Node>
  type Links = set<Link>

  /** `entry(k).and_modify(|e| e.neighbours.push(v))`: a node that is not
      declared is left undeclared. */
  function AppendIfDeclared(nodes: Nodes, k: Id, v: Id): Nodes
  {
    if k in nodes then nodes[k := nodes[k].(neighbours := nodes[k].neighbours + [v])] else nodes
  }

  /** The effect of one record of `load_graph`; `None` where the original
      aborts (a self-loop or a field count other than 2 or 3). */
  function LoadRecord(nodes: Nodes, links: Links, data: seq<string>): Option<(Nodes, Links)>
  {
    if |data| == 2 then
      if data[0] == data[1] then None
      else
        var n := AppendIfDeclared(AppendIfDeclared(nodes, data[0], data[1]), data[1], data[0]);
        Some((n, links + {DeterministicLink(data[0], data[1])}))
    else if |data| == 3 then
      if data[0] in nodes then Some((nodes, links))
      else Some((nodes[data[0] := Node(data[0], data[2], data[1], [])], links))
    else None
  }

  /** `load_graph` over the lines already read, as a left fold. */
  function LoadLines(lines: seq<string>): Option<(Nodes, Links)>
    decreases |lines|
  {
    if |lines| == 0 then Some((map[], {}))
    else
      var acc :- LoadLines(lines[..|lines| - 1]);
      LoadRecord(acc.0, acc.1, Fields(lines[|lines| - 1], Separator))
  }

  /** A record `load_graph` accepts. */
  predicate RecordAccepted(data: seq<string>)
  {
    |data| == 3 || (|data| == 2 && data[0] != data[1])
  }

  /** A node record declaring `id`. */
  predicate Declares(data: seq<string>, id: Id)
  {
    |data| == 3 && data[0] == id
  }

  /** The other endpoints of the link records that mention `id`, in order. */
  function Partners(lines: seq<string>, sep: char, id: Id): seq<Id>
    decreases |lines|
  {
    if |lines| == 0 then []
    else
      var d := Fields(lines[|lines| - 1], sep);
      Partners(lines[..|lines| - 1], sep, id) + PartnerIn(d, id)
  }

  /** The other endpoint of a link record that mentions `id`. */
  function PartnerIn(d: seq<string>, id: Id): seq<Id>
  {
    if |d| == 2 && d[0] == id then [d[1]] else if |d| == 2 && d[1] == id then [d[0]] else []
  }

  /** The ids declared by the node records. */
  function DeclaredIds(lines: seq<string>, sep: char): set<Id>
    decreases |lines|
  {
    if |lines| == 0 then {}
    else
      var d := Fields(lines[|lines| - 1], sep);
      DeclaredIds(lines[..|lines| - 1], sep) + (if |d| == 3 then {d[0]} else {})
  }

  /** The canonical pairs of the link records. */
  function LinkPairs(lines: seq<string>, sep: char): set<Link>
    decreases |lines|
  {
    if |lines| == 0 then {}
    else
      var d := Fields(lines[|lines| - 1], sep);
      LinkPairs(lines[..|lines| - 1], sep) + (if |d| == 2 then {DeterministicLink(d[0], d[1])} else {})
  }

  /** An id no node record of a prefix declares is not declared by it. */
  lemma {:induction false} NotDeclared(lines: seq<string>, sep: char, id: Id)
    requires forall j :: 0 <= j < |lines| ==> !Declares(Fields(lines[j], sep), id)
    ensures id !in DeclaredIds(lines, sep)
    decreases |lines|
  {
    if |lines| > 0 {
      var pre := lines[..|lines| - 1];
      assert forall j :: 0 <= j < |pre| ==> pre[j] == lines[j];
      NotDeclared(pre, sep, id);
    }
  }

  /** `load_graph`: the per-line loop over already-read lines. */
  method LoadGraph(lines: seq<string>) returns (r: Option<(Nodes, Links)>)
    ensures r == LoadLines(lines)
  {
    var nodes: Nodes := map[];
    var links: Links := {};
    var i := 0;
    while i < |lines|
      invariant 0 <= i <= |lines|
      invariant LoadLines(lines[..i]) == Some((nodes, links))
    {
      assert lines[..i + 1][..i] == lines[..i];
      var data := Fields(lines[i], Separator);
      if |data| == 2 {
        var source := data[0];
        var target := data[1];
        if source == target {
          LoadPrefixFails(lines, i + 1);
          return None;
        }
        if source in nodes {
          nodes := nodes[source := nodes[source].(neighbours := nodes[source].neighbours + [target])];
        }
        if target in nodes {
          nodes := nodes[target := nodes[target].(neighbours := nodes[target].neighbours + [source])];
        }
        links := links + {DeterministicLink(source, target)};
      } else if |data| == 3 {
        if data[0] !in nodes {
          nodes := nodes[data[0] := Node(data[0], data[2], data[1], [])];
        }
      } else {
        assert LoadLines(lines[..i + 1]) == None;
        LoadPrefixFails(lines, i + 1);
        return None;
      }
      i := i + 1;
    }
    assert lines[..i] == lines;
    r := Some((nodes, links));
  }

  /** Once a prefix fails, the whole input fails. */
  lemma {:induction false} LoadPrefixFails(lines: seq<string>, k: nat)
    requires k <= |lines| && LoadLines(lines[..k]) == None
    ensures LoadLines(lines) == None
    decreases |lines| - k
  {
    if k < |lines| {
      assert lines[..k + 1][..k] == lines[..k];
      LoadPrefixFails(lines, k + 1);
    } else {
      assert lines[..k] == lines;
    }
  }

  /** `load_graph` succeeds exactly when every record is accepted. */
  lemma {:induction false} LoadSucceedsIff(lines: seq<string>)
    ensures LoadLines(lines).Some? <==> forall j :: 0 <= j < |lines| ==> RecordAccepted(Fields(lines[j], Separator))
    decreases |lines|
  {
    if |lines| > 0 {
      var pre := lines[..|lines| - 1];
      LoadSucceedsIff(pre);
      assert forall j :: 0 <= j < |pre| ==> pre[j] == lines[j];
    }
  }

  /** One accepted record: a node record adds its id unless present, a link
      record adds its canonical pair, and ids stay the keys they are stored under. */
  lemma LoadRecordStep(nodes: Nodes, links: Links, d: seq<string>)
    requires LoadRecord(nodes, links, d).Some?
    requires forall id :: id in nodes ==> nodes[id].id == id
    ensures var r := LoadRecord(nodes, links, d).value;
      && r.0.Keys == nodes.Keys + (if |d| == 3 then {d[0]} else {})
      && r.1 == links + (if |d| == 2 then {DeterministicLink(d[0], d[1])} else {})
      && (forall id :: id in r.0 ==> r.0[id].id == id)
  {
  }

  /** One accepted record leaves a declared node in place, except that a
      link record mentioning it appends the other endpoint. */
  lemma LoadRecordNeighbours(nodes: Nodes, links: Links, d: seq<string>, id: Id)
    requires LoadRecord(nodes, links, d).Some? && id in nodes
    ensures var r := LoadRecord(nodes, links, d).value;
      id in r.0 && r.0[id] == nodes[id].(neighbours := nodes[id].neighbours + PartnerIn(d, id))
  {
  }

  /** The result of a successful load: the declared ids are the nodes, each
      keyed by its own id, and the link set holds the canonical pair of
      every link record. */
  lemma {:induction false} LoadResult(lines: seq<string>)
    requires LoadLines(lines).Some?
    ensures LoadLines(lines).value.0.Keys == DeclaredIds(lines, Separator)
    ensures LoadLines(lines).value.1 == LinkPairs(lines, Separator)
    ensures forall id :: id in LoadLines(lines).value.0 ==> LoadLines(lines).value.0[id].id == id
    decreases |lines|
  {
    if |lines| > 0 {
      var n := |lines| - 1;
      var pre := lines[..n];
      var acc := LoadLines(pre).value;
      LoadResult(pre);
      var d := Fields(lines[n], Separator);
      assert LoadLines(lines) == LoadRecord(acc.0, acc.1, d);
      LoadRecordStep(acc.0, acc.1, d);
      assert DeclaredIds(lines, Separator) == DeclaredIds(pre, Separator) + (if |d| == 3 then {d[0]} else {});
      assert LinkPairs(lines, Separator) == LinkPairs(pre, Separator) + (if |d| == 2 then {DeterministicLink(d[0], d[1])} else {});
    }
  }

  /** The first node record of an id decides its coordinates, and its
      neighbour list holds, in order, the other endpoint of every later
      link record that mentions it. */
  lemma {:induction false} LoadFirstDeclarationWins(lines: seq<string>, f: nat, id: Id)
    requires LoadLines(lines).Some?
    requires f < |lines| && Declares(Fields(lines[f], Separator), id)
    requires forall j :: 0 <= j < f ==> !Declares(Fields(lines[j], Separator), id)
    ensures id in LoadLines(lines).value.0
    ensures var d := Fields(lines[f], Separator);
      LoadLines(lines).value.0[id] == Node(id, d[2], d[1], Partners(lines[f + 1..], Separator, id))
    decreases |lines|
  {
    var n := |lines| - 1;
    var pre := lines[..n];
    var acc := LoadLines(pre).value;
    assert LoadLines(lines) == LoadRecord(acc.0, acc.1, Fields(lines[n], Separator));
    if f == n {
      LoadResult(pre);
      assert forall j :: 0 <= j < n ==> pre[j] == lines[j];
      NotDeclared(pre, Separator, id);
      assert lines[f + 1..] == [];
    } else {
      assert forall j :: 0 <= j < f ==> pre[j] == lines[j];
      assert pre[f] == lines[f];
      LoadFirstDeclarationWins(pre, f, id);
      LoadRecordNeighbours(acc.0, acc.1, Fields(lines[n], Separator), id);
      var rest := lines[f + 1..];
      assert rest[..|rest| - 1] == pre[f + 1..];
      assert rest[|rest| - 1] == lines[n];
    }
  }
}
