/** The API service: one method per HTTP handler over the two-table store.
    Each returns the status code the handler sends and the JSON payload. */
module Server {
  import opened Common
  import opened Schema
  import opened Tables
  import opened Network

  /** The ids POST /seed reports, one per seeded person. */
  datatype SeedIds = SeedIds(pramod: int, amit: int, ravi: int, isha: int)

  datatype Payload =
    | NoContent
    | PersonJson(person: Person)
    | PeopleJson(people: seq<Person>)
    | RelationshipJson(relationship: Relationship)
    | RelationshipsJson(relationships: seq<Relationship>)
    | GraphJson(graph: Graph)
    | SeedJson(ids: SeedIds)
    | IssuesJson(issues: seq<Issue>)
    | ErrorJson(error: string)

  datatype Response = Response(status: int, payload: Payload)

  /** The payload each POST /relationships refusal is sent with. */
  function RejectionPayload(rej: Rejection): (r: Payload)
    ensures r.IssuesJson? <==> rej.Malformed?
    ensures rej.Malformed? ==> r.issues == rej.issues
    ensures r.ErrorJson? <==> !rej.Malformed?
    ensures r.ErrorJson? ==> r.error != []
  {
    match rej
    case Malformed(issues) => IssuesJson(issues)
    case SelfRelation => ErrorJson("Cannot relate a person to themselves")
    case UnknownPerson => ErrorJson("Invalid person ids")
    case Duplicate => ErrorJson("Relationship already exists or invalid")
  }

  /** Different refusals are sent with different payloads, so a client can
      tell from the body which check refused it. */
  lemma RejectionPayloadInjective(a: Rejection, b: Rejection)
    ensures RejectionPayload(a) == RejectionPayload(b) <==> a == b
  {
  }

  /** The database: both tables in rowid order and their AUTOINCREMENT
      counters (the largest id each table has issued). `foreignKeys` is
      whether SQLite enforces the foreign keys, and with them the cascade. */
  class Store {
    const foreignKeys: bool
    var people: seq<Person>
    var relationships: seq<Relationship>
    var peopleSeq: nat
    var relationshipsSeq: nat

    /** The table invariants hold between requests. */
    ghost predicate Valid()
      reads this
    {
      Consistent(people, relationships, peopleSeq, relationshipsSeq, foreignKeys)
    }

    /** A fresh database file: both tables empty. */
    constructor (foreignKeys: bool)
      ensures Valid()
      ensures this.foreignKeys == foreignKeys
      ensures people == [] && relationships == [] && peopleSeq == 0 && relationshipsSeq == 0
    {
      this.foreignKeys := foreignKeys;
      people, relationships := [], [];
      peopleSeq, relationshipsSeq := 0, 0;
    }

    /** GET /people: every row, in table order. */
    method ListPeople() returns (resp: Response)
      ensures resp.status == 200 && resp.payload.PeopleJson?
      ensures forall p :: p in resp.payload.people <==> p in people
      ensures |resp.payload.people| == |people|
    {
      resp := Response(200, PeopleJson(people));
    }

    /** GET /people/:id: the row with that id, or 404. */
    method GetPerson(id: int) returns (resp: Response)
      ensures resp.status == 200 || resp.status == 404
      ensures resp.status == 404 <==> forall p :: p in people ==> p.id != id
      ensures resp.status == 404 ==> resp == Response(404, ErrorJson("Not found"))
      ensures resp.status == 200 ==> resp.payload.PersonJson? && resp.payload.person in people
                                     && resp.payload.person.id == id
                                     && Find(people, id) == Some(resp.payload.person)
    {
      var row := Find(people, id);
      if row.None? {
        return Response(404, ErrorJson("Not found"));
      }
      resp := Response(200, PersonJson(row.value));
    }

    /** POST /people: validate, then insert under the next id; a created row
        gets `group_tag` "friend" only when the body leaves it absent or null. */
    method CreatePerson(body: PersonBody, emailOk: string -> bool) returns (resp: Response)
      requires Valid()
      modifies this`people, this`peopleSeq
      ensures Valid()
      ensures relationships == old(relationships) && relationshipsSeq == old(relationshipsSeq)
      ensures match ParsePerson(body, false, emailOk)
        case Err(issues) =>
          resp == Response(400, IssuesJson(issues)) && people == old(people) && peopleSeq == old(peopleSeq)
        case Ok(f) =>
          var row := CreatedRow(old(peopleSeq) + 1, f);
          && resp == Response(201, PersonJson(row))
          && people == old(people) + [row]
          && peopleSeq == old(peopleSeq) + 1
    {
      var parse := ParsePerson(body, false, emailOk);
      if parse.Err? {
        return Response(400, IssuesJson(parse.error));
      }
      var row := CreatedRow(peopleSeq + 1, parse.value);
      InsertPerson(row);
      resp := Response(201, PersonJson(row));
    }

    /** `INSERT INTO people`: the row goes last and the counter moves on to its id. */
    method InsertPerson(row: Person)
      requires Valid()
      requires row.id == peopleSeq + 1
      modifies this`people, this`peopleSeq
      ensures Valid()
      ensures people == old(people) + [row] && peopleSeq == old(peopleSeq) + 1
      ensures Find(people, row.id) == Some(row)
    {
      CreatePersonKeepsConsistent(people, relationships, peopleSeq, relationshipsSeq, foreignKeys, row);
      people := people + [row];
      peopleSeq := peopleSeq + 1;
    }

    /** POST /people followed by GET /people/:id of the issued id: the row
        read back is the body's values, the new id and the defaulted
        `group_tag`. */
    method CreateThenGet(body: PersonBody, emailOk: string -> bool) returns (created: Response, fetched: Response)
      requires Valid()
      modifies this`people, this`peopleSeq
      ensures Valid()
      ensures ParsePerson(body, false, emailOk).Ok? ==>
        && created.status == 201 && created.payload.PersonJson?
        && fetched == Response(200, created.payload)
        && created.payload.person.id == peopleSeq
        && body.name == Str(created.payload.person.name)
        && BodyStored(body.dob, created.payload.person.dob) && BodyStored(body.phone, created.payload.person.phone)
        && BodyStored(body.email, created.payload.person.email) && BodyStored(body.notes, created.payload.person.notes)
        && created.payload.person.groupTag == Some(if body.groupTag.Str? then body.groupTag.s else "friend")
    {
      var before, issued := people, peopleSeq;
      created := CreatePerson(body, emailOk);
      if ParsePerson(body, false, emailOk).Ok? {
        CreatedRowRecordsBody(before, issued, body, emailOk);
      }
      fetched := GetPerson(issued + 1);
    }

    /** PUT /people/:id: validate against the partial schema first, then look
        the row up, then write the merge of the body over it. */
    method UpdatePerson(id: int, body: PersonBody, emailOk: string -> bool) returns (resp: Response)
      requires Valid()
      modifies this`people
      ensures Valid()
      ensures match ParsePerson(body, true, emailOk)
        case Err(issues) => resp == Response(400, IssuesJson(issues)) && people == old(people)
        case Ok(f) =>
          match Find(old(people), id)
          case None => resp == Response(404, ErrorJson("Not found")) && people == old(people)
          case Some(existing) =>
            && people == Replace(old(people), Merged(existing, f))
            && resp == Response(200, PersonJson(Merged(existing, f)))
            && Find(people, id) == Some(Merged(existing, f))
    {
      var parse := ParsePerson(body, true, emailOk);
      if parse.Err? {
        return Response(400, IssuesJson(parse.error));
      }
      var existing := Find(people, id);
      if existing.None? {
        return Response(404, ErrorJson("Not found"));
      }
      var merged := Merged(existing.value, parse.value);
      var updated := Replace(people, merged);
      UpdatePersonKeepsConsistent(people, relationships, peopleSeq, relationshipsSeq, foreignKeys, merged);
      people := updated;
      resp := Response(200, PersonJson(merged));
    }

    /** DELETE /people/:id: remove the row if there is one; the person's
        relationships go too only when foreign keys are enforced. Always 204. */
    method DeletePerson(id: int) returns (resp: Response)
      requires Valid()
      modifies this`people, this`relationships
      ensures Valid()
      ensures resp == Response(204, NoContent)
      ensures people == RemovePerson(old(people), id)
      ensures relationships == if foreignKeys then Detach(old(relationships), id) else old(relationships)
      ensures Find(old(people), id).None? ==> people == old(people)
    {
      DeletePersonKeepsConsistent(people, relationships, peopleSeq, relationshipsSeq, foreignKeys, id);
      if Find(people, id).None? {
        RemoveAbsentPerson(people, id);
      }
      var keptPeople := RemovePerson(people, id);
      var keptRels := if foreignKeys then Detach(relationships, id) else relationships;
      people, relationships := keptPeople, keptRels;
      resp := Response(204, NoContent);
    }

    /** GET /relationships: every row, in table order. */
    method ListRelationships() returns (resp: Response)
      ensures resp.status == 200 && resp.payload.RelationshipsJson?
      ensures forall r :: r in resp.payload.relationships <==> r in relationships
      ensures |resp.payload.relationships| == |relationships|
    {
      resp := Response(200, RelationshipsJson(relationships));
    }

    /** POST /relationships: schema (400), self relation (400), unknown
        person (400), duplicate triple (409), else insert under the next id
        (201). Every refusal leaves both tables as they were. */
    method CreateRelationship(body: RelationshipBody) returns (resp: Response)
      requires Valid()
      modifies this`relationships, this`relationshipsSeq
      ensures Valid()
      ensures match Admit(old(people), old(relationships), body)
        case Err(rej) =>
          && resp == Response(StatusOf(rej), RejectionPayload(rej))
          && relationships == old(relationships) && relationshipsSeq == old(relationshipsSeq)
        case Ok(f) =>
          var row := Relationship(old(relationshipsSeq) + 1, f.personId, f.relatedPersonId, f.relationshipType);
          && resp == Response(201, RelationshipJson(row))
          && relationships == old(relationships) + [row]
          && relationshipsSeq == old(relationshipsSeq) + 1
    {
      var parse := ParseRelationship(body);
      if parse.Err? {
        assert Admit(people, relationships, body) == Err(Malformed(parse.error));
        return Response(400, IssuesJson(parse.error));
      }
      var f := parse.value;
      if f.personId == f.relatedPersonId {
        assert Admit(people, relationships, body) == Err(SelfRelation);
        return Response(400, ErrorJson("Cannot relate a person to themselves"));
      }
      var p1 := Find(people, f.personId);
      var p2 := Find(people, f.relatedPersonId);
      if p1.None? || p2.None? {
        assert Admit(people, relationships, body) == Err(UnknownPerson);
        return Response(400, ErrorJson("Invalid person ids"));
      }
      if HasTriple(relationships, (f.personId, f.relatedPersonId, f.relationshipType)) {
        // the INSERT violates UNIQUE(person_id, related_person_id, relationship_type)
        assert Admit(people, relationships, body) == Err(Duplicate);
        return Response(409, ErrorJson("Relationship already exists or invalid"));
      }
      assert Admit(people, relationships, body) == Ok(f);
      var row := InsertRelationship(body, f);
      resp := Response(201, RelationshipJson(row));
    }

    /** `INSERT INTO relationships` of an admitted body: the row goes last
        under the next id. */
    method InsertRelationship(body: RelationshipBody, f: RelationshipFields) returns (row: Relationship)
      requires Valid()
      requires Admit(people, relationships, body) == Ok(f)
      modifies this`relationships, this`relationshipsSeq
      ensures Valid()
      ensures row == Relationship(old(relationshipsSeq) + 1, f.personId, f.relatedPersonId, f.relationshipType)
      ensures relationships == old(relationships) + [row] && relationshipsSeq == old(relationshipsSeq) + 1
    {
      row := Relationship(relationshipsSeq + 1, f.personId, f.relatedPersonId, f.relationshipType);
      CreateRelationshipKeepsConsistent(people, relationships, peopleSeq, relationshipsSeq, foreignKeys, body, f);
      relationships := relationships + [row];
      relationshipsSeq := relationshipsSeq + 1;
    }

    /** DELETE /relationships/:id: remove the row if there is one. Always 204. */
    method DeleteRelationship(id: int) returns (resp: Response)
      requires Valid()
      modifies this`relationships
      ensures Valid()
      ensures resp == Response(204, NoContent)
      ensures relationships == RemoveRelationship(old(relationships), id)
      ensures (forall r :: r in old(relationships) ==> r.id != id) ==> relationships == old(relationships)
    {
      DeleteRelationshipKeepsConsistent(people, relationships, peopleSeq, relationshipsSeq, foreignKeys, id);
      if forall r :: r in relationships ==> r.id != id {
        RemoveAbsentRelationship(relationships, id);
      }
      relationships := RemoveRelationship(relationships, id);
      resp := Response(204, NoContent);
    }

    /** GET /network/:id: 404 without a centre row; otherwise the two joined
        queries, then one loop over each that sets the neighbour map and
        pushes an edge per row. */
    method GetNetwork(id: int) returns (resp: Response)
      ensures match Projection(people, relationships, id)
        case None => resp == Response(404, ErrorJson("Person not found"))
        case Some(g) => resp == Response(200, GraphJson(g))
    {
      var center := Find(people, id);
      if center.None? {
        return Response(404, ErrorJson("Person not found"));
      }
      var rels := Outbound(people, relationships, id);
      var reciprocal := Inbound(people, relationships, id);

      var neighborSet, outEdges := WalkOutbound(id, rels);
      var finalSet, edges := WalkInbound(id, reciprocal, OutNeighbors(rels), neighborSet, outEdges);
      ProjectionOf(people, relationships, id, center.value);

      var nodes := [Node(id, center.value.name, GroupOf(center.value.groupTag), Some("dot"))] + finalSet.Nodes();
      resp := Response(200, GraphJson(Graph(nodes, edges)));
    }

    /** POST /seed: clear both tables when asked, then insert the four example
        people and their three relationships under the next ids. */
    method Seed(clear: bool) returns (resp: Response)
      requires Valid()
      modifies this`people, this`relationships, this`peopleSeq, this`relationshipsSeq
      ensures Valid()
      ensures people == (if clear then [] else old(people)) + SeedPeople(old(peopleSeq))
      ensures relationships == (if clear then [] else old(relationships))
                               + SeedRelationships(old(relationshipsSeq), old(peopleSeq))
      ensures peopleSeq == old(peopleSeq) + 4 && relationshipsSeq == old(relationshipsSeq) + 3
      ensures resp == Response(200, SeedJson(SeedIds(old(peopleSeq) + 1, old(peopleSeq) + 2,
                                                      old(peopleSeq) + 3, old(peopleSeq) + 4)))
    {
      var last := peopleSeq;
      if clear {
        ClearTables();
      }
      InsertSeed();
      resp := Response(200, SeedJson(SeedIds(last + 1, last + 2, last + 3, last + 4)));
    }

    /** `DELETE FROM relationships; DELETE FROM people;`: both tables empty,
        the AUTOINCREMENT counters kept. */
    method ClearTables()
      requires Valid()
      modifies this`people, this`relationships
      ensures Valid()
      ensures people == [] && relationships == []
    {
      people, relationships := [], [];
    }

    /** The seed's seven INSERTs: four people, then their three relationships,
        each under the next id of its table. */
    method InsertSeed()
      requires Valid()
      modifies this`people, this`relationships, this`peopleSeq, this`relationshipsSeq
      ensures Valid()
      ensures people == old(people) + SeedPeople(old(peopleSeq))
      ensures relationships == old(relationships) + SeedRelationships(old(relationshipsSeq), old(peopleSeq))
      ensures peopleSeq == old(peopleSeq) + 4 && relationshipsSeq == old(relationshipsSeq) + 3
    {
      SeedOntoKeepsConsistent(people, relationships, peopleSeq, relationshipsSeq, foreignKeys);
      people, relationships := people + SeedPeople(peopleSeq), relationships + SeedRelationships(relationshipsSeq, peopleSeq);
      peopleSeq, relationshipsSeq := peopleSeq + 4, relationshipsSeq + 3;
    }
  }

  /** The handler's first loop: for each outbound row, set the target in the
      neighbour map and push an edge from the centre. */
  method WalkOutbound(id: int, rows: seq<JoinedRow>) returns (neighborSet: NeighborMap, edges: seq<Edge>)
    ensures neighborSet == Collect(OutNeighbors(rows))
    ensures neighborSet.Valid()
    ensures edges == OutEdges(id, rows)
  {
    neighborSet := EmptyNeighbors;
    edges := [];
    var i := 0;
    while i < |rows|
      invariant 0 <= i <= |rows|
      invariant neighborSet == Collect(OutNeighbors(rows[..i]))
      invariant edges == OutEdges(id, rows[..i])
    {
      var r := rows[i];
      OutRowsSnoc(id, rows, i);
      CollectSnoc(OutNeighbors(rows[..i]), OutNeighbor(r));
      neighborSet := neighborSet.Set(Node(r.rel.relatedPersonId, r.other.name, GroupOf(r.other.groupTag), None));
      edges := edges + [Edge(id, r.rel.relatedPersonId, r.rel.relationshipType)];
      i := i + 1;
    }
    assert rows[..i] == rows;
  }

  /** The handler's second loop: for each inbound row, set the source in the
      map the first loop built and push an edge into the centre. */
  method WalkInbound(id: int, rows: seq<JoinedRow>, before: seq<Node>, start: NeighborMap, startEdges: seq<Edge>)
    returns (neighborSet: NeighborMap, edges: seq<Edge>)
    requires start == Collect(before)
    ensures neighborSet == Collect(before + InNeighbors(rows))
    ensures neighborSet.Valid()
    ensures edges == startEdges + InEdges(id, rows)
  {
    neighborSet := start;
    edges := startEdges;
    var i := 0;
    assert before + InNeighbors(rows[..0]) == before;
    assert startEdges + InEdges(id, rows[..0]) == startEdges;
    while i < |rows|
      invariant 0 <= i <= |rows|
      invariant neighborSet == Collect(before + InNeighbors(rows[..i]))
      invariant edges == startEdges + InEdges(id, rows[..i])
    {
      var r := rows[i];
      CollectInboundSnoc(before, rows, i);
      InEdgesAfterSnoc(id, startEdges, rows, i);
      neighborSet := neighborSet.Set(Node(r.rel.personId, r.other.name, GroupOf(r.other.groupTag), None));
      edges := edges + [Edge(r.rel.personId, id, r.rel.relationshipType)];
      i := i + 1;
    }
    assert rows[..i] == rows;
  }
}
