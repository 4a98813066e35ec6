/** The `/network/:id` projection: the centre person, every distinct
    neighbour and every relationship touching the centre, in the
    `{nodes, edges}` shape a graph-drawing client consumes. */
module Network {
  import opened Common
  import opened Tables

  /** A graph node (`text` is its JSON `label`); only the centre carries a shape. */
  datatype Node = Node(id: int, text: string, group: string, shape: Option<string>)

  /** A directed graph edge; `text` is its JSON `label`. */
  datatype Edge = Edge(from: int, to: int, text: string)

  datatype Graph = Graph(nodes: seq<Node>, edges: seq<Edge>)

  /** A row of a joined query: a relationship and the people row at its
      other end (`related_name` and `related_group` are that row's columns). */
  datatype JoinedRow = JoinedRow(rel: Relationship, other: Person)

  /** `group_tag || "friend"`: NULL and the empty string both become "friend". */
  function GroupOf(tag: Option<string>): (g: string)
    ensures g != ""
    ensures tag.Some? && tag.value != "" ==> g == tag.value
    ensures tag.None? || tag.value == "" ==> g == "friend"
  {
    if tag.Some? && tag.value != "" then tag.value else "friend"
  }

  // ---- The two SQL queries ----

  /** `WHERE r.person_id=?` joined with `people p2 ON p2.id = r.related_person_id`. */
  function OutKeep(people: seq<Person>, id: int): Relationship -> bool
  {
    (r: Relationship) => r.personId == id && Find(people, r.relatedPersonId).Some?
  }

  /** `WHERE r.related_person_id=?` joined with `people p1 ON p1.id = r.person_id`. */
  function InKeep(people: seq<Person>, id: int): Relationship -> bool
  {
    (r: Relationship) => r.relatedPersonId == id && Find(people, r.personId).Some?
  }

  /** The outbound rows, taken to come in table order (the query has no
      ORDER BY); a relationship whose target has no people row is dropped
      by the inner join. */
  function Outbound(people: seq<Person>, rels: seq<Relationship>, id: int): (rows: seq<JoinedRow>)
    ensures |rows| == |Filter(rels, OutKeep(people, id))|
    ensures forall k :: 0 <= k < |rows| ==>
      && rows[k].rel == Filter(rels, OutKeep(people, id))[k]
      && rows[k].rel in rels && rows[k].rel.personId == id
      && Find(people, rows[k].rel.relatedPersonId) == Some(rows[k].other)
  {
    var matched := Filter(rels, OutKeep(people, id));
    seq(|matched|, k requires 0 <= k < |matched| =>
      assert matched[k] in matched && matched[k] in rels && OutKeep(people, id)(matched[k]);
      JoinedRow(matched[k], Find(people, matched[k].relatedPersonId).value))
  }

  /** The inbound rows, taken to come in table order, joined on the source person. */
  function Inbound(people: seq<Person>, rels: seq<Relationship>, id: int): (rows: seq<JoinedRow>)
    ensures |rows| == |Filter(rels, InKeep(people, id))|
    ensures forall k :: 0 <= k < |rows| ==>
      && rows[k].rel == Filter(rels, InKeep(people, id))[k]
      && rows[k].rel in rels && rows[k].rel.relatedPersonId == id
      && Find(people, rows[k].rel.personId) == Some(rows[k].other)
  {
    var matched := Filter(rels, InKeep(people, id));
    seq(|matched|, k requires 0 <= k < |matched| =>
      assert matched[k] in matched && matched[k] in rels && InKeep(people, id)(matched[k]);
      JoinedRow(matched[k], Find(people, matched[k].personId).value))
  }

  // ---- What the two loops make of each row ----

  function OutNeighbor(row: JoinedRow): Node
  {
    Node(row.rel.relatedPersonId, row.other.name, GroupOf(row.other.groupTag), None)
  }

  function InNeighbor(row: JoinedRow): Node
  {
    Node(row.rel.personId, row.other.name, GroupOf(row.other.groupTag), None)
  }

  function OutEdge(id: int, row: JoinedRow): Edge
  {
    Edge(id, row.rel.relatedPersonId, row.rel.relationshipType)
  }

  function InEdge(id: int, row: JoinedRow): Edge
  {
    Edge(row.rel.personId, id, row.rel.relationshipType)
  }

  function OutNeighbors(rows: seq<JoinedRow>): (r: seq<Node>)
    ensures |r| == |rows| && forall k :: 0 <= k < |rows| ==> r[k] == OutNeighbor(rows[k])
  {
    seq(|rows|, k requires 0 <= k < |rows| => OutNeighbor(rows[k]))
  }

  function InNeighbors(rows: seq<JoinedRow>): (r: seq<Node>)
    ensures |r| == |rows| && forall k :: 0 <= k < |rows| ==> r[k] == InNeighbor(rows[k])
  {
    seq(|rows|, k requires 0 <= k < |rows| => InNeighbor(rows[k]))
  }

  function OutEdges(id: int, rows: seq<JoinedRow>): (r: seq<Edge>)
    ensures |r| == |rows| && forall k :: 0 <= k < |rows| ==> r[k] == OutEdge(id, rows[k])
  {
    seq(|rows|, k requires 0 <= k < |rows| => OutEdge(id, rows[k]))
  }

  function InEdges(id: int, rows: seq<JoinedRow>): (r: seq<Edge>)
    ensures |r| == |rows| && forall k :: 0 <= k < |rows| ==> r[k] == InEdge(id, rows[k])
  {
    seq(|rows|, k requires 0 <= k < |rows| => InEdge(id, rows[k]))
  }

  // ---- The neighbour map: a JavaScript Map keyed by person id ----

  predicate Distinct(keys: seq<int>)
  {
    forall a, b :: 0 <= a < b < |keys| ==> keys[a] != keys[b]
  }

  /** Keys in insertion order, and the value stored under each key. */
  datatype NeighborMap = NeighborMap(keys: seq<int>, values: map<int, Node>)
  {
    /** The keys listed are exactly the keys stored, once each, and every
        node is stored under its own id. */
    predicate Valid()
    {
      && (forall k :: k in values ==> k in keys)
      && (forall a :: 0 <= a < |keys| ==> keys[a] in values)
      && Distinct(keys)
      && (forall k :: k in values ==> values[k].id == k)
    }

    /** `map.set(node.id, node)`: a new key goes last, an existing key keeps
        its place, and the value is replaced. */
    function Set(node: Node): (m: NeighborMap)
      requires Valid()
      ensures m.Valid()
      ensures node.id in values ==> m.keys == keys
      ensures node.id !in values ==> m.keys == keys + [node.id]
      ensures m.values == values[node.id := node]
    {
      NeighborMap(if node.id in values then keys else keys + [node.id], values[node.id := node])
    }

    /** `Array.from(map.values())`. */
    function Nodes(): (r: seq<Node>)
      requires Valid()
      ensures |r| == |keys| && forall a :: 0 <= a < |keys| ==> r[a] == values[keys[a]]
    {
      seq(|keys|, a requires 0 <= a < |keys| => values[keys[a]])
    }
  }

  const EmptyNeighbors: NeighborMap := NeighborMap([], map[])

  /** The map after setting each node in turn. */
  function Collect(entries: seq<Node>): (m: NeighborMap)
    ensures m.Valid()
  {
    if entries == [] then EmptyNeighbors
    else Collect(entries[..|entries| - 1]).Set(entries[|entries| - 1])
  }

  /** Setting one more node extends the collected map by one `set`. */
  lemma CollectSnoc(entries: seq<Node>, node: Node)
    ensures Collect(entries + [node]) == Collect(entries).Set(node)
  {
    assert (entries + [node])[..|entries|] == entries;
  }

  lemma OutRowsSnoc(id: int, rows: seq<JoinedRow>, i: int)
    requires 0 <= i < |rows|
    ensures OutNeighbors(rows[..i + 1]) == OutNeighbors(rows[..i]) + [OutNeighbor(rows[i])]
    ensures OutEdges(id, rows[..i + 1]) == OutEdges(id, rows[..i]) + [OutEdge(id, rows[i])]
  {
  }

  /** One more inbound row sets one more node after whatever came before. */
  lemma CollectInboundSnoc(before: seq<Node>, rows: seq<JoinedRow>, i: int)
    requires 0 <= i < |rows|
    ensures Collect(before + InNeighbors(rows[..i + 1]))
         == Collect(before + InNeighbors(rows[..i])).Set(InNeighbor(rows[i]))
  {
    InRowsSnoc(0, rows, i);
    assert before + InNeighbors(rows[..i + 1]) == (before + InNeighbors(rows[..i])) + [InNeighbor(rows[i])];
    CollectSnoc(before + InNeighbors(rows[..i]), InNeighbor(rows[i]));
  }

  /** One more inbound row pushes one more edge after whatever came before. */
  lemma InEdgesAfterSnoc(id: int, before: seq<Edge>, rows: seq<JoinedRow>, i: int)
    requires 0 <= i < |rows|
    ensures before + InEdges(id, rows[..i + 1]) == (before + InEdges(id, rows[..i])) + [InEdge(id, rows[i])]
  {
    InRowsSnoc(id, rows, i);
  }

  lemma InRowsSnoc(id: int, rows: seq<JoinedRow>, i: int)
    requires 0 <= i < |rows|
    ensures InNeighbors(rows[..i + 1]) == InNeighbors(rows[..i]) + [InNeighbor(rows[i])]
    ensures InEdges(id, rows[..i + 1]) == InEdges(id, rows[..i]) + [InEdge(id, rows[i])]
  {
  }

  /** Where an id first occurs among the entries; `|entries|` if nowhere. */
  function FirstIndex(entries: seq<Node>, k: int): (i: nat)
    ensures i <= |entries|
    ensures i < |entries| ==> entries[i].id == k
    ensures forall j :: 0 <= j < i ==> entries[j].id != k
  {
    if entries == [] then 0
    else if entries[0].id == k then 0
    else 1 + FirstIndex(entries[1..], k)
  }

  predicate Occurs(entries: seq<Node>, k: int)
  {
    exists j :: 0 <= j < |entries| && entries[j].id == k
  }

  /** The neighbour ids are the ids among the entries. */
  lemma {:induction false} CollectKeys(entries: seq<Node>)
    ensures forall k :: k in Collect(entries).values <==> Occurs(entries, k)
  {
    if entries != [] {
      var init := entries[..|entries| - 1];
      CollectKeys(init);
      forall k | Occurs(init, k) ensures Occurs(entries, k) {
        var j :| 0 <= j < |init| && init[j].id == k;
        assert entries[j] == init[j];
      }
      forall k | Occurs(entries, k) && k != entries[|entries| - 1].id ensures Occurs(init, k) {
        var j :| 0 <= j < |entries| && entries[j].id == k;
        assert init[j] == entries[j];
      }
    }
  }

  /** Each neighbour holds the value of the last entry with its id. */
  lemma {:induction false} CollectLastWrite(entries: seq<Node>, k: int)
    requires k in Collect(entries).values
    ensures exists j :: 0 <= j < |entries| && entries[j] == Collect(entries).values[k]
                        && forall j' :: j < j' < |entries| ==> entries[j'].id != k
  {
    var n := |entries|;
    var init := entries[..n - 1];
    if entries[n - 1].id == k {
      assert entries[n - 1] == Collect(entries).values[k];
    } else {
      CollectLastWrite(init, k);
      var j :| 0 <= j < |init| && init[j] == Collect(init).values[k]
               && forall j' :: j < j' < |init| ==> init[j'].id != k;
      assert entries[j] == init[j];
      forall j' | j < j' < n ensures entries[j'].id != k {
        if j' < n - 1 {
          assert entries[j'] == init[j'];
        }
      }
    }
  }

  lemma {:induction false} FirstIndexOfPrefix(init: seq<Node>, last: Node, k: int)
    requires Occurs(init, k)
    ensures FirstIndex(init + [last], k) == FirstIndex(init, k) < |init|
  {
    if init[0].id != k {
      var j :| 0 <= j < |init| && init[j].id == k;
      assert init[1..][j - 1].id == k;
      assert (init + [last])[1..] == init[1..] + [last];
      FirstIndexOfPrefix(init[1..], last, k);
    }
  }

  /** The neighbours appear in the order their ids first occur. */
  lemma {:induction false} CollectFirstAppearance(entries: seq<Node>)
    ensures forall a, b :: 0 <= a < b < |Collect(entries).keys| ==>
      FirstIndex(entries, Collect(entries).keys[a]) < FirstIndex(entries, Collect(entries).keys[b])
  {
    if entries != [] {
      var n := |entries|;
      var init := entries[..n - 1];
      var last := entries[n - 1];
      assert entries == init + [last];
      CollectFirstAppearance(init);
      CollectKeys(init);
      var before := Collect(init);
      var after := Collect(entries);
      forall a | 0 <= a < |before.keys| ensures FirstIndex(entries, before.keys[a]) == FirstIndex(init, before.keys[a]) < n - 1 {
        assert before.keys[a] in before.values;
        FirstIndexOfPrefix(init, last, before.keys[a]);
      }
      if last.id !in before.values {
        assert !Occurs(init, last.id);
        assert FirstIndex(entries, last.id) == n - 1;
      }
    }
  }

  // ---- The projection ----

  function CenterNode(id: int, center: Person): Node
  {
    Node(id, center.name, GroupOf(center.groupTag), Some("dot"))
  }

  /** The neighbour entries in the order the two loops set them. */
  function Entries(people: seq<Person>, rels: seq<Relationship>, id: int): seq<Node>
  {
    OutNeighbors(Outbound(people, rels, id)) + InNeighbors(Inbound(people, rels, id))
  }

  /** The response body built from the centre row and the two joined
      queries' rows: the centre node, then the neighbour map's values, and
      the outbound edges followed by the inbound ones. */
  function View(id: int, center: Person, outs: seq<JoinedRow>, ins: seq<JoinedRow>): (g: Graph)
    ensures |g.nodes| >= 1 && g.nodes[0] == CenterNode(id, center)
    ensures |g.edges| == |outs| + |ins|
  {
    Graph([CenterNode(id, center)] + Collect(OutNeighbors(outs) + InNeighbors(ins)).Nodes(),
          OutEdges(id, outs) + InEdges(id, ins))
  }

  /** GET /network/:id: `None` (404) when the centre has no people row;
      otherwise the centre node, then the distinct neighbours, and the
      outbound edges followed by the inbound ones. */
  function Projection(people: seq<Person>, rels: seq<Relationship>, id: int): (g: Option<Graph>)
    ensures g.None? <==> forall p :: p in people ==> p.id != id
    ensures g.Some? ==> |g.value.nodes| >= 1
  {
    match Find(people, id)
    case None => None
    case Some(center) => Some(View(id, center, Outbound(people, rels, id), Inbound(people, rels, id)))
  }

  /** The graph for a centre that exists, spelled out. */
  lemma ProjectionOf(people: seq<Person>, rels: seq<Relationship>, id: int, center: Person)
    requires Find(people, id) == Some(center)
    ensures Projection(people, rels, id) == Some(View(id, center, Outbound(people, rels, id), Inbound(people, rels, id)))
  {
  }

  /** The node list of an existing centre: the centre, then the map's
      values in key order. */
  lemma ProjectionNodes(people: seq<Person>, rels: seq<Relationship>, id: int)
    requires Projection(people, rels, id).Some?
    ensures var m := Collect(Entries(people, rels, id));
            var nodes := Projection(people, rels, id).value.nodes;
            && |nodes| == |m.keys| + 1
            && (forall a :: 1 <= a < |nodes| ==> m.keys[a - 1] in m.values && nodes[a] == m.values[m.keys[a - 1]])
  {
    var m := Collect(Entries(people, rels, id));
    var nodes := Projection(people, rels, id).value.nodes;
    var center := Find(people, id).value;
    ProjectionOf(people, rels, id, center);
    var listed := m.Nodes();
    assert nodes == [CenterNode(id, center)] + listed;
    forall a | 1 <= a < |nodes| ensures m.keys[a - 1] in m.values && nodes[a] == m.values[m.keys[a - 1]] {
      assert nodes[a] == listed[a - 1];
    }
  }

  /** The edge list of an existing centre: outbound edges, then inbound. */
  lemma ProjectionEdges(people: seq<Person>, rels: seq<Relationship>, id: int)
    requires Projection(people, rels, id).Some?
    ensures Projection(people, rels, id).value.edges
         == OutEdges(id, Outbound(people, rels, id)) + InEdges(id, Inbound(people, rels, id))
  {
  }

  /** The first node is the centre, drawn as a dot, its group
      `group_tag || "friend"` (so an empty group_tag shows as "friend"). */
  lemma CenterComesFirst(people: seq<Person>, rels: seq<Relationship>, p: Person)
    requires StrictlyIncreasing(people, PersonKey)
    requires p in people
    ensures Projection(people, rels, p.id).Some?
    ensures Projection(people, rels, p.id).value.nodes[0]
         == Node(p.id, p.name, if p.groupTag == Some("") || p.groupTag.None? then "friend" else p.groupTag.value, Some("dot"))
  {
    FindUnique(people, p);
  }

  /** No neighbour id is listed twice. */
  lemma NeighborIdsDistinct(people: seq<Person>, rels: seq<Relationship>, id: int)
    requires Projection(people, rels, id).Some?
    ensures var nodes := Projection(people, rels, id).value.nodes;
            forall a, b :: 1 <= a < b < |nodes| ==> nodes[a].id != nodes[b].id
  {
    var m := Collect(Entries(people, rels, id));
    var nodes := Projection(people, rels, id).value.nodes;
    ProjectionNodes(people, rels, id);
    forall a, b | 1 <= a < b < |nodes| ensures nodes[a].id != nodes[b].id {
      assert nodes[a] == m.values[m.keys[a - 1]] && nodes[b] == m.values[m.keys[b - 1]];
    }
  }

  /** The other end of a relationship touching `id`, when that end has a people row. */
  predicate Neighbors(people: seq<Person>, rels: seq<Relationship>, id: int, n: int)
  {
    exists r :: r in rels && Find(people, n).Some? &&
      ((r.personId == id && r.relatedPersonId == n) || (r.relatedPersonId == id && r.personId == n))
  }

  /** A relationship that passes the outbound query has its row. */
  lemma OutboundHas(people: seq<Person>, rels: seq<Relationship>, id: int, r: Relationship)
    requires r in rels && r.personId == id && Find(people, r.relatedPersonId).Some?
    ensures exists k :: 0 <= k < |Outbound(people, rels, id)| && Outbound(people, rels, id)[k].rel == r
  {
    var matched := Filter(rels, OutKeep(people, id));
    assert OutKeep(people, id)(r);
    assert r in matched;
    var k :| 0 <= k < |matched| && matched[k] == r;
    assert Outbound(people, rels, id)[k].rel == r;
  }

  /** A relationship that passes the inbound query has its row. */
  lemma InboundHas(people: seq<Person>, rels: seq<Relationship>, id: int, r: Relationship)
    requires r in rels && r.relatedPersonId == id && Find(people, r.personId).Some?
    ensures exists k :: 0 <= k < |Inbound(people, rels, id)| && Inbound(people, rels, id)[k].rel == r
  {
    var matched := Filter(rels, InKeep(people, id));
    assert InKeep(people, id)(r);
    assert r in matched;
    var k :| 0 <= k < |matched| && matched[k] == r;
    assert Inbound(people, rels, id)[k].rel == r;
  }

  /** Indexing the concatenated neighbour entries lands in one of the two halves. */
  lemma EntriesAt(outs: seq<JoinedRow>, ins: seq<JoinedRow>, j: int)
    requires 0 <= j < |outs| + |ins|
    ensures j < |outs| ==> (OutNeighbors(outs) + InNeighbors(ins))[j] == OutNeighbor(outs[j])
    ensures j >= |outs| ==> (OutNeighbors(outs) + InNeighbors(ins))[j] == InNeighbor(ins[j - |outs|])
  {
    var on, inn := OutNeighbors(outs), InNeighbors(ins);
    if j >= |outs| {
      assert (on + inn)[j] == inn[j - |on|];
    }
  }

  lemma EntryIsNeighbor(people: seq<Person>, rels: seq<Relationship>, id: int, j: int)
    requires 0 <= j < |Entries(people, rels, id)|
    ensures Neighbors(people, rels, id, Entries(people, rels, id)[j].id)
  {
    var outs := Outbound(people, rels, id);
    var ins := Inbound(people, rels, id);
    EntriesAt(outs, ins, j);
    if j < |outs| {
      var r := outs[j].rel;
      assert r in rels && r.personId == id && Find(people, r.relatedPersonId).Some?;
    } else {
      var r := ins[j - |outs|].rel;
      assert r in rels && r.relatedPersonId == id && Find(people, r.personId).Some?;
    }
  }

  lemma NeighborIsEntry(people: seq<Person>, rels: seq<Relationship>, id: int, n: int, r: Relationship)
    requires r in rels && Find(people, n).Some?
    requires (r.personId == id && r.relatedPersonId == n) || (r.relatedPersonId == id && r.personId == n)
    ensures Occurs(Entries(people, rels, id), n)
  {
    var outs := Outbound(people, rels, id);
    var ins := Inbound(people, rels, id);
    if r.personId == id && r.relatedPersonId == n {
      OutboundHas(people, rels, id, r);
      var k :| 0 <= k < |outs| && outs[k].rel == r;
      EntriesAt(outs, ins, k);
      assert Entries(people, rels, id)[k].id == n;
    } else {
      InboundHas(people, rels, id, r);
      var k :| 0 <= k < |ins| && ins[k].rel == r;
      EntriesAt(outs, ins, |outs| + k);
      assert Entries(people, rels, id)[|outs| + k].id == n;
    }
  }

  lemma EntriesOccur(people: seq<Person>, rels: seq<Relationship>, id: int, n: int)
    ensures Occurs(Entries(people, rels, id), n) <==> Neighbors(people, rels, id, n)
  {
    var entries := Entries(people, rels, id);
    if Occurs(entries, n) {
      var j :| 0 <= j < |entries| && entries[j].id == n;
      EntryIsNeighbor(people, rels, id, j);
    }
    if Neighbors(people, rels, id, n) {
      var r :| r in rels && Find(people, n).Some? &&
        ((r.personId == id && r.relatedPersonId == n) || (r.relatedPersonId == id && r.personId == n));
      NeighborIsEntry(people, rels, id, n, r);
    }
  }

  /** The neighbour map holds an id exactly when that id is the other end of a touching relationship. */
  lemma NeighborKeys(people: seq<Person>, rels: seq<Relationship>, id: int, n: int)
    ensures n in Collect(Entries(people, rels, id)).values <==> Neighbors(people, rels, id, n)
  {
    CollectKeys(Entries(people, rels, id));
    EntriesOccur(people, rels, id, n);
  }

  /** The neighbours are exactly the other ends, with people rows, of the
      relationships touching the centre. */
  lemma NeighborsAreOtherEnds(people: seq<Person>, rels: seq<Relationship>, id: int, n: int)
    requires Projection(people, rels, id).Some?
    ensures var nodes := Projection(people, rels, id).value.nodes;
            (exists a :: 1 <= a < |nodes| && nodes[a].id == n) <==> Neighbors(people, rels, id, n)
  {
    var m := Collect(Entries(people, rels, id));
    var nodes := Projection(people, rels, id).value.nodes;
    ProjectionNodes(people, rels, id);
    NeighborKeys(people, rels, id, n);
    if exists a :: 1 <= a < |nodes| && nodes[a].id == n {
      var a :| 1 <= a < |nodes| && nodes[a].id == n;
      assert m.values[m.keys[a - 1]].id == m.keys[a - 1];
    }
    if n in m.values {
      var a :| 0 <= a < |m.keys| && m.keys[a] == n;
      assert nodes[a + 1] == m.values[n];
    }
  }

  /** Without self relationships the centre is never its own neighbour. */
  lemma CenterNotNeighbor(people: seq<Person>, rels: seq<Relationship>, id: int)
    requires NoSelfRelation(rels)
    requires Projection(people, rels, id).Some?
    ensures var nodes := Projection(people, rels, id).value.nodes;
            forall a :: 1 <= a < |nodes| ==> nodes[a].id != id
  {
    var nodes := Projection(people, rels, id).value.nodes;
    forall a | 1 <= a < |nodes| ensures nodes[a].id != id {
      NeighborsAreOtherEnds(people, rels, id, nodes[a].id);
    }
  }

  /** Every neighbour carries the name and group of its own people row:
      whichever row set it last, the value is the same. */
  lemma NeighborFromPeopleRow(people: seq<Person>, rels: seq<Relationship>, id: int, a: int)
    requires Projection(people, rels, id).Some?
    requires 1 <= a < |Projection(people, rels, id).value.nodes|
    ensures var n := Projection(people, rels, id).value.nodes[a];
            var p := Find(people, n.id);
            p.Some? && n == Node(n.id, p.value.name, GroupOf(p.value.groupTag), None)
  {
    var entries := Entries(people, rels, id);
    var m := Collect(entries);
    ProjectionNodes(people, rels, id);
    var k := m.keys[a - 1];
    assert Projection(people, rels, id).value.nodes[a] == m.values[k];
    CollectLastWrite(entries, k);
    var j :| 0 <= j < |entries| && entries[j] == m.values[k]
             && forall j' :: j < j' < |entries| ==> entries[j'].id != k;
    EntriesAt(Outbound(people, rels, id), Inbound(people, rels, id), j);
  }

  /** Neighbours are listed in the order their ids first occur among the
      outbound rows and then the inbound rows. */
  lemma NeighborOrder(people: seq<Person>, rels: seq<Relationship>, id: int)
    requires Projection(people, rels, id).Some?
    ensures var entries := Entries(people, rels, id);
            var nodes := Projection(people, rels, id).value.nodes;
            forall a, b :: 1 <= a < b < |nodes| ==> FirstIndex(entries, nodes[a].id) < FirstIndex(entries, nodes[b].id)
  {
    var entries := Entries(people, rels, id);
    var m := Collect(entries);
    var nodes := Projection(people, rels, id).value.nodes;
    CollectFirstAppearance(entries);
    ProjectionNodes(people, rels, id);
    forall a, b | 1 <= a < b < |nodes|
      ensures FirstIndex(entries, nodes[a].id) < FirstIndex(entries, nodes[b].id)
    {
      assert nodes[a].id == m.keys[a - 1] && nodes[b].id == m.keys[b - 1];
    }
  }

  /** Each neighbour holds the values of the last row that names it. */
  lemma NeighborLastWrite(people: seq<Person>, rels: seq<Relationship>, id: int, a: int)
    requires Projection(people, rels, id).Some?
    requires 1 <= a < |Projection(people, rels, id).value.nodes|
    ensures var entries := Entries(people, rels, id);
            var n := Projection(people, rels, id).value.nodes[a];
            exists j :: 0 <= j < |entries| && entries[j] == n
                        && forall j' :: j < j' < |entries| ==> entries[j'].id != n.id
  {
    var entries := Entries(people, rels, id);
    var m := Collect(entries);
    ProjectionNodes(people, rels, id);
    CollectLastWrite(entries, m.keys[a - 1]);
  }

  /** One edge per joined row: first the outbound rows as `{from: id, to}`,
      then the inbound rows as `{from, to: id}`; parallel edges are all kept. */
  lemma EdgesFollowRows(people: seq<Person>, rels: seq<Relationship>, id: int)
    requires Projection(people, rels, id).Some?
    ensures var edges := Projection(people, rels, id).value.edges;
            var nOut := |Filter(rels, OutKeep(people, id))|;
            && |edges| == nOut + |Filter(rels, InKeep(people, id))|
            && (forall k :: 0 <= k < nOut ==> edges[k].from == id && Find(people, edges[k].to).Some?)
            && (forall k :: nOut <= k < |edges| ==> edges[k].to == id && Find(people, edges[k].from).Some?)
  {
    var outs := Outbound(people, rels, id);
    var ins := Inbound(people, rels, id);
    var edges := Projection(people, rels, id).value.edges;
    ProjectionEdges(people, rels, id);
    var oe, ie := OutEdges(id, outs), InEdges(id, ins);
    assert edges == oe + ie;
    forall k | 0 <= k < |outs| ensures edges[k].from == id && Find(people, edges[k].to).Some? {
      assert edges[k] == oe[k] == OutEdge(id, outs[k]);
    }
    forall k | |outs| <= k < |edges| ensures edges[k].to == id && Find(people, edges[k].from).Some? {
      assert edges[k] == ie[k - |outs|] == InEdge(id, ins[k - |outs|]);
    }
  }

  /** `e` is the edge of a relationship touching `id`, in its stored
      direction, whose other end has a people row. */
  predicate EdgeOfTouching(people: seq<Person>, rels: seq<Relationship>, id: int, e: Edge)
  {
    exists r :: r in rels &&
      ((r.personId == id && Find(people, r.relatedPersonId).Some? && e == Edge(id, r.relatedPersonId, r.relationshipType))
       || (r.relatedPersonId == id && Find(people, r.personId).Some? && e == Edge(r.personId, id, r.relationshipType)))
  }

  /** Indexing the concatenated edge list lands in one of its two halves. */
  lemma EdgesAt(id: int, outs: seq<JoinedRow>, ins: seq<JoinedRow>, k: int)
    requires 0 <= k < |outs| + |ins|
    ensures k < |outs| ==> (OutEdges(id, outs) + InEdges(id, ins))[k] == OutEdge(id, outs[k])
    ensures k >= |outs| ==> (OutEdges(id, outs) + InEdges(id, ins))[k] == InEdge(id, ins[k - |outs|])
  {
    var oe, ie := OutEdges(id, outs), InEdges(id, ins);
    if k >= |outs| {
      assert (oe + ie)[k] == ie[k - |oe|];
    }
  }

  lemma EdgeIsTouching(people: seq<Person>, rels: seq<Relationship>, id: int, e: Edge)
    requires Projection(people, rels, id).Some?
    requires e in Projection(people, rels, id).value.edges
    ensures EdgeOfTouching(people, rels, id, e)
  {
    var outs := Outbound(people, rels, id);
    var ins := Inbound(people, rels, id);
    var edges := Projection(people, rels, id).value.edges;
    var k :| 0 <= k < |edges| && edges[k] == e;
    ProjectionEdges(people, rels, id);
    EdgesAt(id, outs, ins, k);
    if k < |outs| {
      assert outs[k].rel in rels;
    } else {
      assert ins[k - |outs|].rel in rels;
    }
  }

  lemma TouchingHasEdge(people: seq<Person>, rels: seq<Relationship>, id: int, e: Edge)
    requires Projection(people, rels, id).Some?
    requires EdgeOfTouching(people, rels, id, e)
    ensures e in Projection(people, rels, id).value.edges
  {
    var outs := Outbound(people, rels, id);
    var ins := Inbound(people, rels, id);
    var edges := Projection(people, rels, id).value.edges;
    var r :| r in rels &&
      ((r.personId == id && Find(people, r.relatedPersonId).Some? && e == Edge(id, r.relatedPersonId, r.relationshipType))
       || (r.relatedPersonId == id && Find(people, r.personId).Some? && e == Edge(r.personId, id, r.relationshipType)));
    if r.personId == id && Find(people, r.relatedPersonId).Some? && e == Edge(id, r.relatedPersonId, r.relationshipType) {
      OutboundHas(people, rels, id, r);
      var k :| 0 <= k < |outs| && outs[k].rel == r;
      ProjectionEdges(people, rels, id);
      EdgesAt(id, outs, ins, k);
    } else {
      InboundHas(people, rels, id, r);
      var k :| 0 <= k < |ins| && ins[k].rel == r;
      ProjectionEdges(people, rels, id);
      EdgesAt(id, outs, ins, |outs| + k);
    }
  }

  /** An edge for every relationship touching the centre whose other end has
      a people row, in its stored direction, and no other edges. */
  lemma EdgesAreTouchingRelationships(people: seq<Person>, rels: seq<Relationship>, id: int, e: Edge)
    requires Projection(people, rels, id).Some?
    ensures e in Projection(people, rels, id).value.edges <==> EdgeOfTouching(people, rels, id, e)
  {
    if e in Projection(people, rels, id).value.edges {
      EdgeIsTouching(people, rels, id, e);
    }
    if EdgeOfTouching(people, rels, id, e) {
      TouchingHasEdge(people, rels, id, e);
    }
  }

  // ---- Relationships the inner joins cannot see ----

  function ResolvesIn(people: seq<Person>): Relationship -> bool
  {
    (r: Relationship) => Find(people, r.personId).Some? && Find(people, r.relatedPersonId).Some?
  }

  /** The projection only sees relationships whose two ends have people rows:
      dropping every other relationship leaves it unchanged. */
  lemma ProjectionIgnoresDangling(people: seq<Person>, rels: seq<Relationship>, id: int)
    ensures Projection(people, Filter(rels, ResolvesIn(people)), id) == Projection(people, rels, id)
  {
    if Find(people, id).Some? {
      FilterAbsorbs(rels, ResolvesIn(people), OutKeep(people, id));
      FilterAbsorbs(rels, ResolvesIn(people), InKeep(people, id));
    }
  }

  /** Deleting a person gives every remaining centre the same projection
      whether or not the delete cascades to the person's relationships. */
  lemma CascadeInvisibleToProjection(people: seq<Person>, rels: seq<Relationship>, x: int, id: int)
    ensures var people' := RemovePerson(people, x);
            Projection(people', rels, id) == Projection(people', Detach(rels, x), id)
  {
    var people' := RemovePerson(people, x);
    assert Find(people', x).None?;
    FilterAbsorbs(rels, (r: Relationship) => r.personId != x && r.relatedPersonId != x, ResolvesIn(people'));
    ProjectionIgnoresDangling(people', rels, id);
    ProjectionIgnoresDangling(people', Detach(rels, x), id);
  }

  /** After a person is deleted, no projection shows them, as a node or on an edge. */
  lemma DeletedPersonNotShown(people: seq<Person>, rels: seq<Relationship>, x: int, id: int)
    requires Projection(RemovePerson(people, x), rels, id).Some?
    ensures var g := Projection(RemovePerson(people, x), rels, id).value;
            (forall n :: n in g.nodes ==> n.id != x)
            && (forall e :: e in g.edges ==> e.from != x && e.to != x)
  {
    var people' := RemovePerson(people, x);
    var g := Projection(people', rels, id).value;
    assert Find(people', x).None?;
    forall n | n in g.nodes ensures n.id != x {
      var a :| 0 <= a < |g.nodes| && g.nodes[a] == n;
      if a == 0 {
        CenterIsFound(people', rels, id);
      } else {
        NeighborsAreOtherEnds(people', rels, id, n.id);
      }
    }
    EdgesFollowRows(people', rels, id);
  }

  /** The centre node's id has a people row. */
  lemma CenterIsFound(people: seq<Person>, rels: seq<Relationship>, id: int)
    requires Projection(people, rels, id).Some?
    ensures Projection(people, rels, id).value.nodes[0].id == id && Find(people, id).Some?
  {
    ProjectionOf(people, rels, id, Find(people, id).value);
  }

  // ---- A worked example ----

  const Pramod := Person(1, "Pramod", None, None, None, None, Some("family"))
  const Amit := Person(2, "Amit", None, None, None, None, Some("friend"))
  const Brother := Relationship(1, 1, 2, "Brother")

  lemma PramodRows()
    ensures Find([Pramod, Amit], 1) == Some(Pramod)
    ensures Outbound([Pramod, Amit], [Brother], 1) == [JoinedRow(Brother, Amit)]
    ensures Inbound([Pramod, Amit], [Brother], 1) == []
  {
    var people, rels := [Pramod, Amit], [Brother];
    assert Find(people, 2) == Some(Amit);
    assert Filter(rels, OutKeep(people, 1)) == [Brother];
    assert Filter(rels, InKeep(people, 1)) == [];
  }

  lemma AmitRows()
    ensures Find([Pramod, Amit], 2) == Some(Amit)
    ensures Outbound([Pramod, Amit], [Brother], 2) == []
    ensures Inbound([Pramod, Amit], [Brother], 2) == [JoinedRow(Brother, Pramod)]
  {
    var people, rels := [Pramod, Amit], [Brother];
    assert Find(people, 1) == Some(Pramod);
    assert Filter(rels, OutKeep(people, 2)) == [];
    assert Filter(rels, InKeep(people, 2)) == [Brother];
  }

  /** A single neighbour collects into a one-entry map. */
  lemma CollectOne(n: Node)
    ensures Collect([n]).Nodes() == [n]
  {
    CollectSnoc([], n);
  }

  /** A centre with one outbound row and no inbound one. */
  lemma OneOutbound(id: int, center: Person, row: JoinedRow)
    ensures View(id, center, [row], []) == Graph([CenterNode(id, center), OutNeighbor(row)], [OutEdge(id, row)])
  {
    assert OutNeighbors([row]) + InNeighbors([]) == [OutNeighbor(row)];
    CollectOne(OutNeighbor(row));
    assert OutEdges(id, [row]) + InEdges(id, []) == [OutEdge(id, row)];
  }

  /** A centre with one inbound row and no outbound one. */
  lemma OneInbound(id: int, center: Person, row: JoinedRow)
    ensures View(id, center, [], [row]) == Graph([CenterNode(id, center), InNeighbor(row)], [InEdge(id, row)])
  {
    assert OutNeighbors([]) + InNeighbors([row]) == [InNeighbor(row)];
    CollectOne(InNeighbor(row));
    assert OutEdges(id, []) + InEdges(id, [row]) == [InEdge(id, row)];
  }

  /** Pramod is Amit's brother: seen from Pramod, the graph holds both
      people and the one edge. */
  lemma BrotherFromPramod()
    ensures Projection([Pramod, Amit], [Brother], 1)
         == Some(Graph([Node(1, "Pramod", "family", Some("dot")), Node(2, "Amit", "friend", None)],
                       [Edge(1, 2, "Brother")]))
  {
    PramodRows();
    ProjectionOf([Pramod, Amit], [Brother], 1, Pramod);
    OneOutbound(1, Pramod, JoinedRow(Brother, Amit));
  }

  /** Seen from Amit, the same edge keeps its direction from Pramod. */
  lemma BrotherFromAmit()
    ensures Projection([Pramod, Amit], [Brother], 2)
         == Some(Graph([Node(2, "Amit", "friend", Some("dot")), Node(1, "Pramod", "family", None)],
                       [Edge(1, 2, "Brother")]))
  {
    AmitRows();
    ProjectionOf([Pramod, Amit], [Brother], 2, Amit);
    OneInbound(2, Amit, JoinedRow(Brother, Pramod));
  }
}
