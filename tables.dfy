/** The two tables of the store, `people` and `relationships`, as rows in
    rowid order, with the rows the handlers write and the invariants the
    API keeps on them. */
module Tables {
  import opened Common
  import opened Schema

  /** A `people` row; NULL columns are `None`. */
  datatype Person = Person(
    id: int, name: string,
    dob: Option<string>, phone: Option<string>, email: Option<string>, notes: Option<string>,
    groupTag: Option<string>)

  /** A `relationships` row, directed from `personId` to `relatedPersonId`. */
  datatype Relationship = Relationship(
    id: int, personId: int, relatedPersonId: int, relationshipType: string)

  function PersonKey(p: Person): int { p.id }

  function RelationshipKey(r: Relationship): int { r.id }

  /** A rowid table in scan order under an AUTOINCREMENT counter `last`: ids
      strictly increase, and every id is positive and was issued (at most `last`). */
  predicate KeyedTable<T(!new)>(rows: seq<T>, key: T -> int, last: nat)
  {
    && StrictlyIncreasing(rows, key)
    && forall i :: 0 <= i < |rows| ==> 1 <= key(rows[i]) <= last
  }

  /** Appending rows issued after `last` keeps a table keyed. */
  lemma AppendKeepsKeyed<T(!new)>(rows: seq<T>, added: seq<T>, key: T -> int, last: nat, last': nat)
    requires KeyedTable(rows, key, last) && KeyedTable(added, key, last')
    requires forall x :: x in added ==> key(x) > last
    requires last <= last'
    ensures KeyedTable(rows + added, key, last')
  {
    var all := rows + added;
    forall i, j | 0 <= i < j < |all| ensures key(all[i]) < key(all[j]) {
      if j >= |rows| && i < |rows| {
        assert all[j] == added[j - |rows|];
        assert all[j] in added;
      } else if j < |rows| {
        assert all[i] == rows[i] && all[j] == rows[j];
      } else {
        assert all[i] == added[i - |rows|] && all[j] == added[j - |rows|];
      }
    }
  }

  // ---- Rows written by the person handlers ----

  /** `x ?? null`: a given string is stored, an absent or null field is NULL. */
  function OrNull(f: Field): (c: Option<string>)
    ensures c.Some? <==> f.Given?
    ensures f.Given? ==> c.value == f.s
  {
    if f.Given? then Some(f.s) else None
  }

  /** `x ?? "friend"`: absent and null become "friend", an empty string stays. */
  function OrFriend(g: Option<string>): (s: string)
    ensures g.Some? ==> s == g.value
    ensures g.None? ==> s == "friend"
  {
    if g.Some? then g.value else "friend"
  }

  /** What one optional column holds after `?? null`: the given string, or
      NULL when the field was absent or null. */
  predicate StoredAs(f: Field, c: Option<string>)
  {
    if f.Given? then c == Some(f.s) else c == None
  }

  /** The row POST /people inserts under the id SQLite assigns. */
  function CreatedRow(id: int, f: PersonFields): (p: Person)
    requires f.name.Some?
    ensures p.id == id && p.name == f.name.value && p.groupTag.Some?
    ensures f.groupTag.Given? ==> p.groupTag == Some(f.groupTag.s)
    ensures !f.groupTag.Given? ==> p.groupTag == Some("friend")
    ensures StoredAs(f.dob, p.dob) && StoredAs(f.phone, p.phone)
    ensures StoredAs(f.email, p.email) && StoredAs(f.notes, p.notes)
  {
    Person(id, f.name.value, OrNull(f.dob), OrNull(f.phone), OrNull(f.email), OrNull(f.notes),
           Some(OrFriend(OrNull(f.groupTag))))
  }

  /** One column of `{...existing, ...parse.data}`: an absent key keeps the
      existing value, null clears it, a string replaces it. */
  function Overlay(existing: Option<string>, f: Field): (c: Option<string>)
    ensures f.Absent? ==> c == existing
    ensures f.Nulled? ==> c == None
    ensures f.Given? ==> c == Some(f.s)
  {
    match f
    case Absent => existing
    case Nulled => None
    case Given(s) => Some(s)
  }

  /** One optional column after an update: overwritten by a given string,
      cleared by null, kept when the key is absent. */
  predicate UpdatedAs(existing: Option<string>, f: Field, c: Option<string>)
  {
    match f
    case Given(s) => c == Some(s)
    case Nulled => c == None
    case Absent => c == existing
  }

  /** The row PUT /people/:id writes: the merge, then `?? null` on the
      optional columns and `?? "friend"` on `group_tag`. */
  function Merged(existing: Person, f: PersonFields): (p: Person)
    ensures p.id == existing.id && p.groupTag.Some?
    ensures p.name == if f.name.Some? then f.name.value else existing.name
    ensures UpdatedAs(existing.dob, f.dob, p.dob) && UpdatedAs(existing.phone, f.phone, p.phone)
    ensures UpdatedAs(existing.email, f.email, p.email) && UpdatedAs(existing.notes, f.notes, p.notes)
    ensures f.groupTag.Given? ==> p.groupTag == Some(f.groupTag.s)
    ensures f.groupTag.Nulled? ==> p.groupTag == Some("friend")
    ensures f.groupTag.Absent? ==> p.groupTag == Some(if existing.groupTag.Some? then existing.groupTag.value else "friend")
  {
    Person(existing.id,
           if f.name.Some? then f.name.value else existing.name,
           Overlay(existing.dob, f.dob), Overlay(existing.phone, f.phone),
           Overlay(existing.email, f.email), Overlay(existing.notes, f.notes),
           Some(OrFriend(Overlay(existing.groupTag, f.groupTag))))
  }

  /** Fields the body leaves out keep their values; the id never changes; a
      `group_tag` that ends up null becomes "friend". */
  lemma MergeKeepsUnsupplied(e: Person, f: PersonFields)
    ensures Merged(e, f).id == e.id
    ensures f.name.None? ==> Merged(e, f).name == e.name
    ensures f.dob.Absent? ==> Merged(e, f).dob == e.dob
    ensures f.phone.Absent? ==> Merged(e, f).phone == e.phone
    ensures f.email.Absent? ==> Merged(e, f).email == e.email
    ensures f.notes.Absent? ==> Merged(e, f).notes == e.notes
    ensures f.groupTag.Absent? && e.groupTag.Some? ==> Merged(e, f).groupTag == e.groupTag
    ensures (f.groupTag.Nulled? || (f.groupTag.Absent? && e.groupTag.None?))
            ==> Merged(e, f).groupTag == Some("friend")
  {
  }

  /** A body that supplies every column writes the row a create would have. */
  lemma MergeCompleteIsCreate(e: Person, f: PersonFields)
    requires f.name.Some?
    requires !f.dob.Absent? && !f.phone.Absent? && !f.email.Absent? && !f.notes.Absent? && !f.groupTag.Absent?
    ensures Merged(e, f) == CreatedRow(e.id, f)
  {
  }

  /** Repeating an update changes nothing more. */
  lemma MergeIdempotent(e: Person, f: PersonFields)
    ensures Merged(Merged(e, f), f) == Merged(e, f)
  {
  }

  /** An empty update leaves a row with a group unchanged. */
  lemma MergeEmptyIsIdentity(e: Person)
    requires e.groupTag.Some?
    ensures Merged(e, PersonFields(None, Absent, Absent, Absent, Absent, Absent)) == e
  {
  }

  // ---- Lookups and row operations ----

  /** `SELECT * FROM people WHERE id=?`. */
  function Find(people: seq<Person>, id: int): (r: Option<Person>)
    ensures r.Some? ==> r.value in people && r.value.id == id
    ensures r.None? <==> forall p :: p in people ==> p.id != id
  {
    if people == [] then None
    else if people[0].id == id then Some(people[0])
    else
      assert forall p :: p in people ==> p == people[0] || p in people[1..];
      Find(people[1..], id)
  }

  /** In a table with distinct ids, the row found is the only row with that id. */
  lemma FindUnique(people: seq<Person>, p: Person)
    requires StrictlyIncreasing(people, PersonKey)
    requires p in people
    ensures Find(people, p.id) == Some(p)
  {
    var q := Find(people, p.id).value;
    var i :| 0 <= i < |people| && people[i] == p;
    var j :| 0 <= j < |people| && people[j] == q;
    assert PersonKey(people[i]) == PersonKey(people[j]);
    assert !(i < j) && !(j < i);
  }

  /** `DELETE FROM people WHERE id=?`: exactly the rows with another id stay. */
  function RemovePerson(people: seq<Person>, id: int): (r: seq<Person>)
    ensures |r| <= |people|
    ensures forall p :: p in r <==> p in people && p.id != id
  {
    Filter(people, (p: Person) => p.id != id)
  }

  /** Deleting a person twice is deleting it once. */
  lemma RemovePersonIdempotent(people: seq<Person>, id: int)
    ensures RemovePerson(RemovePerson(people, id), id) == RemovePerson(people, id)
  {
    FilterIdempotent(people, (p: Person) => p.id != id);
  }

  /** Deleting an id no row has changes nothing. */
  lemma RemoveAbsentPerson(people: seq<Person>, id: int)
    requires forall p :: p in people ==> p.id != id
    ensures RemovePerson(people, id) == people
  {
    FilterKeepsAll(people, (p: Person) => p.id != id);
  }

  /** `DELETE FROM relationships WHERE id=?`: exactly the rows with another id stay. */
  function RemoveRelationship(rels: seq<Relationship>, id: int): (r: seq<Relationship>)
    ensures |r| <= |rels|
    ensures forall x :: x in r <==> x in rels && x.id != id
  {
    Filter(rels, (r: Relationship) => r.id != id)
  }

  lemma RemoveRelationshipIdempotent(rels: seq<Relationship>, id: int)
    ensures RemoveRelationship(RemoveRelationship(rels, id), id) == RemoveRelationship(rels, id)
  {
    FilterIdempotent(rels, (r: Relationship) => r.id != id);
  }

  lemma RemoveAbsentRelationship(rels: seq<Relationship>, id: int)
    requires forall x :: x in rels ==> x.id != id
    ensures RemoveRelationship(rels, id) == rels
  {
    FilterKeepsAll(rels, (r: Relationship) => r.id != id);
  }

  /** ON DELETE CASCADE for a deleted person: exactly the relationships
      touching neither end at that id stay. */
  function Detach(rels: seq<Relationship>, id: int): (r: seq<Relationship>)
    ensures |r| <= |rels|
    ensures forall x :: x in r <==> x in rels && x.personId != id && x.relatedPersonId != id
  {
    Filter(rels, (r: Relationship) => r.personId != id && r.relatedPersonId != id)
  }

  lemma DetachIdempotent(rels: seq<Relationship>, id: int)
    ensures Detach(Detach(rels, id), id) == Detach(rels, id)
  {
    FilterIdempotent(rels, (r: Relationship) => r.personId != id && r.relatedPersonId != id);
  }

  /** A person no relationship touches cascades to nothing. */
  lemma DetachUntouched(rels: seq<Relationship>, id: int)
    requires forall x :: x in rels ==> x.personId != id && x.relatedPersonId != id
    ensures Detach(rels, id) == rels
  {
    FilterKeepsAll(rels, (r: Relationship) => r.personId != id && r.relatedPersonId != id);
  }

  /** DELETE /people/:id of an id no row has: neither the delete nor the
      cascade changes anything. */
  lemma DeleteAbsentPersonChangesNothing(people: seq<Person>, rels: seq<Relationship>, id: int)
    ensures (forall p :: p in people ==> p.id != id) ==> RemovePerson(people, id) == people
    ensures (forall r :: r in rels ==> r.personId != id && r.relatedPersonId != id) ==> Detach(rels, id) == rels
  {
    if forall p :: p in people ==> p.id != id {
      RemoveAbsentPerson(people, id);
    }
    if forall r :: r in rels ==> r.personId != id && r.relatedPersonId != id {
      DetachUntouched(rels, id);
    }
  }

  /** `UPDATE people SET ... WHERE id=?` with the merged row. */
  function Replace(people: seq<Person>, row: Person): (r: seq<Person>)
    ensures |r| == |people|
    ensures forall i :: 0 <= i < |r| ==> r[i] == if people[i].id == row.id then row else people[i]
    ensures forall i :: 0 <= i < |r| ==> r[i].id == people[i].id
  {
    seq(|people|, i requires 0 <= i < |people| => if people[i].id == row.id then row else people[i])
  }

  /** Replacing a row keeps the ids, so a lookup finds the same people, and
      in a table with distinct ids it finds the new row under its id. */
  lemma ReplaceKeepsIds(people: seq<Person>, row: Person, id: int)
    ensures Find(Replace(people, row), id).Some? <==> Find(people, id).Some?
    ensures Find(people, row.id).Some? && StrictlyIncreasing(people, PersonKey)
            ==> Find(Replace(people, row), row.id) == Some(row)
  {
    var r := Replace(people, row);
    if Find(people, id).Some? {
      var i :| 0 <= i < |people| && people[i] == Find(people, id).value;
      assert r[i] in r;
    }
    if Find(r, id).Some? {
      var i :| 0 <= i < |r| && r[i] == Find(r, id).value;
      assert people[i] in people;
    }
    if Find(people, row.id).Some? && StrictlyIncreasing(people, PersonKey) {
      assert StrictlyIncreasing(r, PersonKey);
      var i :| 0 <= i < |people| && people[i] == Find(people, row.id).value;
      assert r[i] == row;
      FindUnique(r, row);
    }
  }

  // ---- Table invariants ----

  /** No relationship relates a person to themselves. */
  predicate NoSelfRelation(rels: seq<Relationship>)
  {
    forall r :: r in rels ==> r.personId != r.relatedPersonId
  }

  function Triple(r: Relationship): (int, int, string)
  {
    (r.personId, r.relatedPersonId, r.relationshipType)
  }

  /** `UNIQUE(person_id, related_person_id, relationship_type)`. */
  predicate UniqueTriples(rels: seq<Relationship>)
  {
    forall i, j :: 0 <= i < j < |rels| ==> Triple(rels[i]) != Triple(rels[j])
  }

  predicate HasTriple(rels: seq<Relationship>, t: (int, int, string))
  {
    exists r :: r in rels && Triple(r) == t
  }

  /** Every relationship's two ends have people rows: what the foreign keys demand. */
  predicate ReferencesResolve(people: seq<Person>, rels: seq<Relationship>)
  {
    forall r :: r in rels ==> Find(people, r.personId).Some? && Find(people, r.relatedPersonId).Some?
  }

  /** Deleting rows keeps both relationship invariants. */
  lemma FilterKeepsRelationshipInvariants(rels: seq<Relationship>, keep: Relationship -> bool)
    requires StrictlyIncreasing(rels, RelationshipKey)
    requires NoSelfRelation(rels) && UniqueTriples(rels)
    ensures NoSelfRelation(Filter(rels, keep)) && UniqueTriples(Filter(rels, keep))
  {
    var f := Filter(rels, keep);
    FilterKeepsIncreasing(rels, keep, RelationshipKey);
    forall i, j | 0 <= i < j < |f| ensures Triple(f[i]) != Triple(f[j]) {
      assert f[i] in rels && f[j] in rels;
      var a :| 0 <= a < |rels| && rels[a] == f[i];
      var b :| 0 <= b < |rels| && rels[b] == f[j];
      assert RelationshipKey(f[i]) < RelationshipKey(f[j]);
      assert a != b;
    }
  }

  /** With cascading delete, removing a person and their relationships keeps
      every reference resolvable. */
  lemma CascadeKeepsReferences(people: seq<Person>, rels: seq<Relationship>, id: int)
    requires ReferencesResolve(people, rels)
    ensures ReferencesResolve(RemovePerson(people, id), Detach(rels, id))
  {
    var ps := RemovePerson(people, id);
    forall r | r in Detach(rels, id)
      ensures Find(ps, r.personId).Some? && Find(ps, r.relatedPersonId).Some?
    {
      var a := Find(people, r.personId).value;
      var b := Find(people, r.relatedPersonId).value;
      assert a in ps && b in ps;
    }
  }

  /** Without it, the same delete strands the relationships of the deleted person. */
  lemma DeleteWithoutCascadeStrands()
    ensures var people := [Person(1, "Pramod", None, None, None, None, Some("family")),
                           Person(2, "Amit", None, None, None, None, Some("friend"))];
            var rels := [Relationship(1, 1, 2, "Brother")];
            ReferencesResolve(people, rels) && !ReferencesResolve(RemovePerson(people, 1), rels)
  {
    var people := [Person(1, "Pramod", None, None, None, None, Some("family")),
                   Person(2, "Amit", None, None, None, None, Some("friend"))];
    var rels := [Relationship(1, 1, 2, "Brother")];
    assert Find(people, 1).Some? && Find(people, 2).Some?;
    assert rels[0] in rels;
    assert Find(RemovePerson(people, 1), 1).None?;
  }

  // ---- POST /relationships ----

  /** Why POST /relationships refuses a body, in the order the checks run. */
  datatype Rejection = Malformed(issues: seq<Issue>) | SelfRelation | UnknownPerson | Duplicate

  /** The status each refusal is reported with. */
  function StatusOf(rej: Rejection): (status: int)
    ensures status == 400 || status == 409
    ensures status == 409 <==> rej.Duplicate?
  {
    match rej
    case Malformed(_) => 400
    case SelfRelation => 400
    case UnknownPerson => 400
    case Duplicate => 409
  }

  /** The checks of POST /relationships in their order: schema, self relation,
      both people present, unique triple. */
  function Admit(people: seq<Person>, rels: seq<Relationship>, b: RelationshipBody)
    : (r: Result<RelationshipFields, Rejection>)
    ensures r.Ok? ==> ParseRelationship(b) == Ok(r.value)
    ensures r.Err? && r.error.Malformed? <==> ParseRelationship(b).Err?
    ensures r.Err? && r.error.Malformed? ==> ParseRelationship(b) == Err(r.error.issues)
    ensures r == Err(SelfRelation) <==>
      ParseRelationship(b).Ok? && ParseRelationship(b).value.personId == ParseRelationship(b).value.relatedPersonId
    ensures r == Err(UnknownPerson) <==>
      ParseRelationship(b).Ok? && ParseRelationship(b).value.personId != ParseRelationship(b).value.relatedPersonId &&
      (Find(people, ParseRelationship(b).value.personId).None? ||
       Find(people, ParseRelationship(b).value.relatedPersonId).None?)
    ensures r == Err(Duplicate) <==>
      ParseRelationship(b).Ok? && ParseRelationship(b).value.personId != ParseRelationship(b).value.relatedPersonId &&
      Find(people, ParseRelationship(b).value.personId).Some? &&
      Find(people, ParseRelationship(b).value.relatedPersonId).Some? &&
      HasTriple(rels, (ParseRelationship(b).value.personId, ParseRelationship(b).value.relatedPersonId,
                       ParseRelationship(b).value.relationshipType))
  {
    match ParseRelationship(b)
    case Err(issues) => Err(Malformed(issues))
    case Ok(f) =>
      if f.personId == f.relatedPersonId then Err(SelfRelation)
      else if Find(people, f.personId).None? || Find(people, f.relatedPersonId).None? then Err(UnknownPerson)
      else if HasTriple(rels, (f.personId, f.relatedPersonId, f.relationshipType)) then Err(Duplicate)
      else Ok(f)
  }

  /** A body is admitted exactly when it parses, relates two different
      people who both exist, and is not already stored. */
  lemma AdmitIff(people: seq<Person>, rels: seq<Relationship>, b: RelationshipBody)
    ensures Admit(people, rels, b).Ok? <==>
      var p := ParseRelationship(b);
      && p.Ok?
      && p.value.personId != p.value.relatedPersonId
      && (exists q :: q in people && q.id == p.value.personId)
      && (exists q :: q in people && q.id == p.value.relatedPersonId)
      && forall r :: r in rels ==> Triple(r) != (p.value.personId, p.value.relatedPersonId, p.value.relationshipType)
  {
    var p := ParseRelationship(b);
    if p.Ok? {
      var f := p.value;
      if Find(people, f.personId).Some? {
        assert Find(people, f.personId).value in people;
      }
      if Find(people, f.relatedPersonId).Some? {
        assert Find(people, f.relatedPersonId).value in people;
      }
    }
  }

  /** Relating a person to themselves is refused before existence is looked
      at: the same answer whether or not that person exists. */
  lemma SelfRelationRefusedRegardless(people: seq<Person>, rels: seq<Relationship>, b: RelationshipBody)
    requires ParseRelationship(b).Ok?
    requires ParseRelationship(b).value.personId == ParseRelationship(b).value.relatedPersonId
    ensures Admit(people, rels, b) == Err(SelfRelation)
    ensures Admit([], [], b) == Err(SelfRelation)
  {
  }

  /** Only a repeat of a stored triple is a conflict. */
  lemma DuplicateMeansStored(people: seq<Person>, rels: seq<Relationship>, b: RelationshipBody)
    requires Admit(people, rels, b) == Err(Duplicate)
    ensures exists r :: r in rels && b == RelationshipBody(
      Num(r.personId as real), Num(r.relatedPersonId as real), Str(r.relationshipType))
  {
    var f := ParseRelationship(b).value;
    var r :| r in rels && Triple(r) == (f.personId, f.relatedPersonId, f.relationshipType);
    assert b == RelationshipBody(Num(r.personId as real), Num(r.relatedPersonId as real), Str(r.relationshipType));
  }

  /** Appending an admitted relationship keeps both relationship invariants
      and, where they held, resolvable references. */
  lemma AdmittedKeepsInvariants(people: seq<Person>, rels: seq<Relationship>, b: RelationshipBody, id: int)
    requires NoSelfRelation(rels) && UniqueTriples(rels)
    requires Admit(people, rels, b).Ok?
    ensures var f := Admit(people, rels, b).value;
            var rels' := rels + [Relationship(id, f.personId, f.relatedPersonId, f.relationshipType)];
            NoSelfRelation(rels') && UniqueTriples(rels')
            && (ReferencesResolve(people, rels) ==> ReferencesResolve(people, rels'))
  {
    var f := Admit(people, rels, b).value;
    var row := Relationship(id, f.personId, f.relatedPersonId, f.relationshipType);
    var rels' := rels + [row];
    forall i, j | 0 <= i < j < |rels'| ensures Triple(rels'[i]) != Triple(rels'[j]) {
      if j == |rels| {
        assert rels'[i] in rels;
      } else {
        assert rels'[i] == rels[i] && rels'[j] == rels[j];
      }
    }
  }

  // ---- POST /seed ----

  /** The four seeded people, issued the ids after `last`. */
  function SeedPeople(last: nat): (ps: seq<Person>)
    ensures |ps| == 4
    ensures forall i :: 0 <= i < 4 ==> ps[i].id == last + 1 + i
  {
    [Person(last + 1, "Pramod", None, None, Some("pramod@example.com"), None, Some("family")),
     Person(last + 2, "Amit", None, None, Some("amit@example.com"), None, Some("friend")),
     Person(last + 3, "Ravi", None, None, Some("ravi@work.com"), None, Some("colleague")),
     Person(last + 4, "Isha", None, None, Some("isha@example.com"), None, Some("family"))]
  }

  /** The three seeded relationships between people seeded after `lastPerson`,
      issued the ids after `last`. */
  function SeedRelationships(last: nat, lastPerson: nat): (rs: seq<Relationship>)
    ensures |rs| == 3
    ensures forall i :: 0 <= i < 3 ==> rs[i].id == last + 1 + i
    ensures forall r :: r in rs ==>
      lastPerson + 1 <= r.personId <= lastPerson + 4 && lastPerson + 1 <= r.relatedPersonId <= lastPerson + 4
    ensures NoSelfRelation(rs) && UniqueTriples(rs)
  {
    var pramod, amit, ravi, isha := lastPerson + 1, lastPerson + 2, lastPerson + 3, lastPerson + 4;
    [Relationship(last + 1, pramod, amit, "Brother"),
     Relationship(last + 2, pramod, ravi, "Friend"),
     Relationship(last + 3, isha, pramod, "Sister")]
  }

  /** The seeded people can be found by the ids they were issued. */
  lemma SeedPeopleFound(base: seq<Person>, lastPerson: nat, id: int)
    requires lastPerson + 1 <= id <= lastPerson + 4
    ensures Find(base + SeedPeople(lastPerson), id).Some?
  {
    var ps := base + SeedPeople(lastPerson);
    var k := id - lastPerson - 1;
    assert ps[|base| + k] == SeedPeople(lastPerson)[k];
    assert ps[|base| + k] in ps;
  }

  /** When every existing row was issued an id at or below `lastPerson`,
      a seeded id finds exactly the seeded person issued it. */
  lemma SeedPersonFoundExactly(base: seq<Person>, lastPerson: nat, id: int)
    requires forall p :: p in base ==> p.id <= lastPerson
    requires lastPerson + 1 <= id <= lastPerson + 4
    ensures Find(base + SeedPeople(lastPerson), id) == Some(SeedPeople(lastPerson)[id - lastPerson - 1])
  {
    SeedPeopleFound(base, lastPerson, id);
    var seeded := SeedPeople(lastPerson);
    var p := Find(base + seeded, id).value;
    assert p in base || p in seeded;
    var j :| 0 <= j < 4 && seeded[j] == p;
    assert j == id - lastPerson - 1;
  }

  /** The seeded triples are new: every stored relationship has both ends
      at or below `lastPerson`, and every seeded one has a person above it. */
  lemma SeedTriplesUnique(kept: seq<Relationship>, lastPerson: nat, last: nat)
    requires forall r :: r in kept ==> r.personId <= lastPerson && r.relatedPersonId <= lastPerson
    requires NoSelfRelation(kept) && UniqueTriples(kept)
    ensures NoSelfRelation(kept + SeedRelationships(last, lastPerson))
    ensures UniqueTriples(kept + SeedRelationships(last, lastPerson))
  {
    var seeded := SeedRelationships(last, lastPerson);
    var rels' := kept + seeded;
    forall i, j | 0 <= i < j < |rels'| ensures Triple(rels'[i]) != Triple(rels'[j]) {
      if j >= |kept| && i < |kept| {
        assert rels'[i] in kept;
      } else if j < |kept| {
        assert rels'[i] == kept[i] && rels'[j] == kept[j];
      } else {
        assert rels'[i] == seeded[i - |kept|] && rels'[j] == seeded[j - |kept|];
      }
    }
  }

  /** References that resolved before seeding still resolve, and the
      seeded relationships resolve to the seeded people. */
  lemma SeedReferencesResolve(base: seq<Person>, kept: seq<Relationship>, lastPerson: nat, last: nat)
    requires ReferencesResolve(base, kept)
    ensures ReferencesResolve(base + SeedPeople(lastPerson), kept + SeedRelationships(last, lastPerson))
  {
    var people' := base + SeedPeople(lastPerson);
    SeedPeopleFound(base, lastPerson, lastPerson + 1);
    SeedPeopleFound(base, lastPerson, lastPerson + 2);
    SeedPeopleFound(base, lastPerson, lastPerson + 3);
    SeedPeopleFound(base, lastPerson, lastPerson + 4);
    forall r | r in kept ensures Find(people', r.personId).Some? && Find(people', r.relatedPersonId).Some? {
      assert Find(base, r.personId).value in people';
      assert Find(base, r.relatedPersonId).value in people';
    }
  }

  // ---- The store invariant, and the handlers that keep it ----

  /** What the two tables satisfy between requests: rowid order under their
      AUTOINCREMENT counters, no self relationship, unique triples,
      relationships only between issued person ids, and, when foreign keys
      are enforced, no dangling reference. */
  predicate Consistent(people: seq<Person>, rels: seq<Relationship>, lastPerson: nat, last: nat, foreignKeys: bool)
  {
    && KeyedTable(people, PersonKey, lastPerson)
    && KeyedTable(rels, RelationshipKey, last)
    && NoSelfRelation(rels)
    && UniqueTriples(rels)
    && (forall r :: r in rels ==> r.personId <= lastPerson && r.relatedPersonId <= lastPerson)
    && (foreignKeys ==> ReferencesResolve(people, rels))
  }

  lemma FilterKeepsKeyed<T(!new)>(rows: seq<T>, keep: T -> bool, key: T -> int, last: nat)
    requires KeyedTable(rows, key, last)
    ensures KeyedTable(Filter(rows, keep), key, last)
  {
    FilterKeepsIncreasing(rows, keep, key);
    var f := Filter(rows, keep);
    forall i | 0 <= i < |f| ensures 1 <= key(f[i]) <= last {
      assert f[i] in rows;
    }
  }

  /** POST /people: appending the row issued the next id keeps the invariant. */
  lemma CreatePersonKeepsConsistent(
    people: seq<Person>, rels: seq<Relationship>, lastPerson: nat, last: nat, fk: bool, row: Person)
    requires Consistent(people, rels, lastPerson, last, fk)
    requires row.id == lastPerson + 1
    ensures Consistent(people + [row], rels, lastPerson + 1, last, fk)
    ensures Find(people + [row], row.id) == Some(row)
    ensures forall p :: p in people ==> p.id < row.id
  {
    AppendKeepsKeyed(people, [row], PersonKey, lastPerson, lastPerson + 1);
    forall p | p in people ensures p.id < row.id {
      var i :| 0 <= i < |people| && people[i] == p;
    }
    if fk {
      forall r | r in rels
        ensures Find(people + [row], r.personId).Some? && Find(people + [row], r.relatedPersonId).Some?
      {
        assert Find(people, r.personId).value in people + [row];
        assert Find(people, r.relatedPersonId).value in people + [row];
      }
    }
    FindUnique(people + [row], row);
  }

  /** A body value as a stored column: its string, or NULL when the key was
      absent or null. */
  predicate BodyStored(v: Value, c: Option<string>)
  {
    if v.Str? then c == Some(v.s) else c == None
  }

  /** Create, then get: the row found under the issued id is the body's
      values plus that id, with `group_tag` defaulted to "friend". */
  lemma CreatedRowRecordsBody(people: seq<Person>, lastPerson: nat, b: PersonBody, emailOk: string -> bool)
    requires KeyedTable(people, PersonKey, lastPerson)
    requires ParsePerson(b, false, emailOk).Ok?
    ensures var row := CreatedRow(lastPerson + 1, ParsePerson(b, false, emailOk).value);
            && Find(people + [row], lastPerson + 1) == Some(row)
            && b.name == Str(row.name)
            && BodyStored(b.dob, row.dob) && BodyStored(b.phone, row.phone)
            && BodyStored(b.email, row.email) && BodyStored(b.notes, row.notes)
            && row.groupTag == Some(if b.groupTag.Str? then b.groupTag.s else "friend")
  {
    var row := CreatedRow(lastPerson + 1, ParsePerson(b, false, emailOk).value);
    AppendKeepsKeyed(people, [row], PersonKey, lastPerson, lastPerson + 1);
    assert row in people + [row];
    FindUnique(people + [row], row);
  }

  /** PUT /people/:id: replacing a row by one with the same id keeps the invariant. */
  lemma UpdatePersonKeepsConsistent(
    people: seq<Person>, rels: seq<Relationship>, lastPerson: nat, last: nat, fk: bool, row: Person)
    requires Consistent(people, rels, lastPerson, last, fk)
    requires Find(people, row.id).Some?
    ensures Consistent(Replace(people, row), rels, lastPerson, last, fk)
    ensures Find(Replace(people, row), row.id) == Some(row)
  {
    var updated := Replace(people, row);
    assert StrictlyIncreasing(updated, PersonKey);
    forall x ensures Find(updated, x).Some? <==> Find(people, x).Some? {
      ReplaceKeepsIds(people, row, x);
    }
    ReplaceKeepsIds(people, row, row.id);
  }

  /** DELETE /people/:id: removing the row, with the cascade when foreign keys
      are enforced, keeps the invariant. */
  lemma DeletePersonKeepsConsistent(
    people: seq<Person>, rels: seq<Relationship>, lastPerson: nat, last: nat, fk: bool, id: int)
    requires Consistent(people, rels, lastPerson, last, fk)
    ensures Consistent(RemovePerson(people, id), if fk then Detach(rels, id) else rels, lastPerson, last, fk)
  {
    FilterKeepsKeyed(people, (p: Person) => p.id != id, PersonKey, lastPerson);
    if fk {
      var detach := (r: Relationship) => r.personId != id && r.relatedPersonId != id;
      CascadeKeepsReferences(people, rels, id);
      FilterKeepsKeyed(rels, detach, RelationshipKey, last);
      FilterKeepsRelationshipInvariants(rels, detach);
    }
  }

  /** POST /relationships: appending an admitted relationship under the next
      id keeps the invariant. */
  lemma CreateRelationshipKeepsConsistent(
    people: seq<Person>, rels: seq<Relationship>, lastPerson: nat, last: nat, fk: bool,
    b: RelationshipBody, f: RelationshipFields)
    requires Consistent(people, rels, lastPerson, last, fk)
    requires Admit(people, rels, b) == Ok(f)
    ensures Consistent(people, rels + [Relationship(last + 1, f.personId, f.relatedPersonId, f.relationshipType)],
                       lastPerson, last + 1, fk)
  {
    var row := Relationship(last + 1, f.personId, f.relatedPersonId, f.relationshipType);
    AdmittedKeepsInvariants(people, rels, b, row.id);
    AppendKeepsKeyed(rels, [row], RelationshipKey, last, last + 1);
    FoundIsIssued(people, lastPerson, f.personId);
    FoundIsIssued(people, lastPerson, f.relatedPersonId);
    forall r | r in rels + [row] ensures r.personId <= lastPerson && r.relatedPersonId <= lastPerson {
      if r != row {
        assert r in rels;
      }
    }
  }

  /** A person found in a keyed people table holds an issued id. */
  lemma FoundIsIssued(people: seq<Person>, lastPerson: nat, id: int)
    requires KeyedTable(people, PersonKey, lastPerson)
    requires Find(people, id).Some?
    ensures 1 <= id <= lastPerson
  {
    var i :| 0 <= i < |people| && people[i] == Find(people, id).value;
  }

  /** DELETE /relationships/:id: removing the row keeps the invariant. */
  lemma DeleteRelationshipKeepsConsistent(
    people: seq<Person>, rels: seq<Relationship>, lastPerson: nat, last: nat, fk: bool, id: int)
    requires Consistent(people, rels, lastPerson, last, fk)
    ensures Consistent(people, RemoveRelationship(rels, id), lastPerson, last, fk)
  {
    var keep := (r: Relationship) => r.id != id;
    FilterKeepsKeyed(rels, keep, RelationshipKey, last);
    FilterKeepsRelationshipInvariants(rels, keep);
  }

  /** The seeded rows on their own: keyed under the advanced counters, every
      id above the old counters, and every reference to a seeded person. */
  lemma SeedRowsKeyed(lastPerson: nat, last: nat)
    ensures KeyedTable(SeedPeople(lastPerson), PersonKey, lastPerson + 4)
    ensures forall p :: p in SeedPeople(lastPerson) ==> PersonKey(p) > lastPerson
    ensures KeyedTable(SeedRelationships(last, lastPerson), RelationshipKey, last + 3)
    ensures forall r :: r in SeedRelationships(last, lastPerson) ==>
      RelationshipKey(r) > last && lastPerson < r.personId <= lastPerson + 4 && lastPerson < r.relatedPersonId <= lastPerson + 4
  {
    var ps := SeedPeople(lastPerson);
    var rs := SeedRelationships(last, lastPerson);
    assert forall i :: 0 <= i < |rs| ==> rs[i].id == last + 1 + i;
  }

  /** Inserting the seed data on top of consistent tables keeps them consistent. */
  lemma SeedOntoKeepsConsistent(
    people: seq<Person>, rels: seq<Relationship>, lastPerson: nat, last: nat, fk: bool)
    requires Consistent(people, rels, lastPerson, last, fk)
    ensures Consistent(people + SeedPeople(lastPerson), rels + SeedRelationships(last, lastPerson),
                       lastPerson + 4, last + 3, fk)
  {
    var seeded := SeedRelationships(last, lastPerson);
    SeedTriplesUnique(rels, lastPerson, last);
    if fk {
      SeedReferencesResolve(people, rels, lastPerson, last);
    }
    SeedRowsKeyed(lastPerson, last);
    AppendKeepsKeyed(people, SeedPeople(lastPerson), PersonKey, lastPerson, lastPerson + 4);
    AppendKeepsKeyed(rels, seeded, RelationshipKey, last, last + 3);
    forall r: Relationship | r in rels + seeded
      ensures r.personId <= lastPerson + 4 && r.relatedPersonId <= lastPerson + 4
    {
      if r in rels {
        assert r.personId <= lastPerson;
      } else {
        assert r in seeded;
      }
    }
  }

  /** POST /seed, with or without clearing: the invariant still holds. */
  lemma SeedKeepsConsistent(
    people: seq<Person>, rels: seq<Relationship>, lastPerson: nat, last: nat, fk: bool, clear: bool)
    requires Consistent(people, rels, lastPerson, last, fk)
    ensures Consistent((if clear then [] else people) + SeedPeople(lastPerson),
                       (if clear then [] else rels) + SeedRelationships(last, lastPerson),
                       lastPerson + 4, last + 3, fk)
  {
    if clear {
      SeedOntoKeepsConsistent([], [], lastPerson, last, fk);
    } else {
      SeedOntoKeepsConsistent(people, rels, lastPerson, last, fk);
    }
  }
}
