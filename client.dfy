/** The browser's in-memory view: the member list, the relation list and the
    two forms, and the handlers that compute new lists from them. Every
    handler builds fresh arrays, so each is a function from one view to the
    next. */
module Client {
  import opened Common

  datatype Member = Member(id: int, name: string, group: string)

  /** A drawn edge; the source calls the caption `label`. */
  datatype Relation = Relation(from: int, to: int, text: string)

  datatype PersonForm = PersonForm(name: string, group: string)

  /** The relationship form. The two selects hold either nothing ("") or a
      member id, so each is `None` or the id it parses to. */
  datatype RelationForm = RelationForm(from: Option<int>, to: Option<int>, text: string)

  /** The fields an edit spreads over a member; absent fields are kept. */
  datatype Patch = Patch(id: Option<int>, name: Option<string>, group: Option<string>)

  datatype Ui = Ui(people: seq<Member>, relations: seq<Relation>,
                   newPerson: PersonForm, relationForm: RelationForm)

  const BlankPerson := PersonForm("", "family")
  const BlankRelation := RelationForm(None, None, "")

  /** The view on first render: Alice and Bob, no relations, blank forms. */
  const Initial := Ui([Member(1, "Alice", "family"), Member(2, "Bob", "friend")], [], BlankPerson, BlankRelation)

  /** "Add": nothing happens while the name is empty; otherwise the form's
      member is appended under the id `now` (the clock's reading) and the
      form is reset. */
  function AddPerson(ui: Ui, now: int): (r: Ui)
    ensures ui.newPerson.name == [] ==> r == ui
    ensures ui.newPerson.name != [] ==>
      && |r.people| == |ui.people| + 1
      && r.people[..|ui.people|] == ui.people
      && r.people[|ui.people|] == Member(now, ui.newPerson.name, ui.newPerson.group)
      && r.newPerson == BlankPerson
    ensures r.relations == ui.relations && r.relationForm == ui.relationForm
  {
    if ui.newPerson.name == [] then ui
    else ui.(people := ui.people + [Member(now, ui.newPerson.name, ui.newPerson.group)], newPerson := BlankPerson)
  }

  function NotMember(id: int): Member -> bool
  {
    (p: Member) => p.id != id
  }

  function NotTouching(id: int): Relation -> bool
  {
    (r: Relation) => r.from != id && r.to != id
  }

  /** "Delete": drop the member with that id and, on the client side, every
      relation that starts or ends at it. */
  function DeletePerson(ui: Ui, id: int): (r: Ui)
    ensures forall p :: p in r.people <==> p in ui.people && p.id != id
    ensures forall e :: e in r.relations <==> e in ui.relations && e.from != id && e.to != id
    ensures KeptInOrder(ui.people, NotMember(id), r.people)
    ensures KeptInOrder(ui.relations, NotTouching(id), r.relations)
    ensures r.newPerson == ui.newPerson && r.relationForm == ui.relationForm
  {
    FilterKeepsOrder(ui.people, NotMember(id));
    FilterKeepsOrder(ui.relations, NotTouching(id));
    ui.(people := Filter(ui.people, NotMember(id)), relations := Filter(ui.relations, NotTouching(id)))
  }

  /** `{ ...p, ...patch }`: each field the patch carries replaces the member's. */
  function Merge(p: Member, patch: Patch): (r: Member)
    ensures patch.id.Some? ==> r.id == patch.id.value
    ensures patch.id.None? ==> r.id == p.id
    ensures patch.name.Some? ==> r.name == patch.name.value
    ensures patch.name.None? ==> r.name == p.name
    ensures patch.group.Some? ==> r.group == patch.group.value
    ensures patch.group.None? ==> r.group == p.group
  {
    Member(if patch.id.Some? then patch.id.value else p.id,
           if patch.name.Some? then patch.name.value else p.name,
           if patch.group.Some? then patch.group.value else p.group)
  }

  /** "Edit": merge the patch over every member whose id matches. */
  function UpdatePerson(ui: Ui, id: int, patch: Patch): (r: Ui)
    ensures |r.people| == |ui.people|
    ensures forall k :: 0 <= k < |ui.people| && ui.people[k].id != id ==> r.people[k] == ui.people[k]
    ensures forall k :: 0 <= k < |ui.people| && ui.people[k].id == id ==>
      && (patch.name.Some? ==> r.people[k].name == patch.name.value)
      && (patch.name.None? ==> r.people[k].name == ui.people[k].name)
      && (patch.group.Some? ==> r.people[k].group == patch.group.value)
      && (patch.group.None? ==> r.people[k].group == ui.people[k].group)
      && (patch.id.None? ==> r.people[k].id == id)
      && (patch.id.Some? ==> r.people[k].id == patch.id.value)
    ensures r.relations == ui.relations && r.newPerson == ui.newPerson && r.relationForm == ui.relationForm
  {
    ui.(people := seq(|ui.people|, k requires 0 <= k < |ui.people| =>
                        if ui.people[k].id == id then Merge(ui.people[k], patch) else ui.people[k]))
  }

  /** "Add" under the relation form: nothing happens while either select or
      the caption is empty; otherwise the relation is appended and the form
      is reset. Neither a self relation nor a repeat is refused. */
  function AddRelation(ui: Ui): (r: Ui)
    ensures ui.relationForm.from.None? || ui.relationForm.to.None? || ui.relationForm.text == [] ==> r == ui
    ensures ui.relationForm.from.Some? && ui.relationForm.to.Some? && ui.relationForm.text != [] ==>
      && r.relations == ui.relations
                        + [Relation(ui.relationForm.from.value, ui.relationForm.to.value, ui.relationForm.text)]
      && r.relationForm == BlankRelation
    ensures r.people == ui.people && r.newPerson == ui.newPerson
  {
    var f := ui.relationForm;
    if f.from.None? || f.to.None? || f.text == [] then ui
    else ui.(relations := ui.relations + [Relation(f.from.value, f.to.value, f.text)], relationForm := BlankRelation)
  }

  // ---- Properties of the handlers ----

  predicate IdsUnique(people: seq<Member>)
  {
    forall i, j :: 0 <= i < j < |people| ==> people[i].id != people[j].id
  }

  /** Adding under an id no member has keeps the ids distinct. */
  /** The first render starts the chain of states with distinct member ids:
      Alice and Bob, both known groups, and no relations. */
  lemma InitialIdsUnique()
    ensures IdsUnique(Initial.people) && Initial.relations == []
    ensures forall m :: m in Initial.people ==> BadgeColor(m.group).Some?
  {
  }

  lemma AddFreshKeepsIdsUnique(ui: Ui, now: int)
    requires IdsUnique(ui.people)
    requires forall p :: p in ui.people ==> p.id != now
    ensures IdsUnique(AddPerson(ui, now).people)
  {
    var r := AddPerson(ui, now).people;
    if ui.newPerson.name != [] {
      forall i, j | 0 <= i < j < |r| ensures r[i].id != r[j].id {
        if j == |ui.people| {
          assert r[i] == ui.people[i];
          assert ui.people[i] in ui.people;
        } else {
          assert r[i] == ui.people[i] && r[j] == ui.people[j];
        }
      }
    }
  }

  /** Deleting the member just added under a fresh id restores the lists. */
  lemma DeleteUndoesAdd(ui: Ui, now: int)
    requires ui.newPerson.name != []
    requires forall p :: p in ui.people ==> p.id != now
    requires forall e :: e in ui.relations ==> e.from != now && e.to != now
    ensures DeletePerson(AddPerson(ui, now), now).people == ui.people
    ensures DeletePerson(AddPerson(ui, now), now).relations == ui.relations
  {
    FilterConcat(ui.people, [Member(now, ui.newPerson.name, ui.newPerson.group)], NotMember(now));
    FilterKeepsAll(ui.people, NotMember(now));
    FilterKeepsAll(ui.relations, NotTouching(now));
  }

  /** Deleting an id twice is deleting it once. */
  lemma DeleteIdempotent(ui: Ui, id: int)
    ensures DeletePerson(DeletePerson(ui, id), id) == DeletePerson(ui, id)
  {
    FilterIdempotent(ui.people, NotMember(id));
    FilterIdempotent(ui.relations, NotTouching(id));
  }

  /** Two deletes give the same lists in either order. */
  lemma DeletesCommute(ui: Ui, a: int, b: int)
    ensures DeletePerson(DeletePerson(ui, a), b) == DeletePerson(DeletePerson(ui, b), a)
  {
    FilterCommutes(ui.people, NotMember(a), NotMember(b));
    FilterCommutes(ui.relations, NotTouching(a), NotTouching(b));
  }

  /** Deleting an id nobody uses changes nothing. */
  lemma DeleteUnknownIsIdentity(ui: Ui, id: int)
    requires forall p :: p in ui.people ==> p.id != id
    requires forall e :: e in ui.relations ==> e.from != id && e.to != id
    ensures DeletePerson(ui, id) == ui
  {
    FilterKeepsAll(ui.people, NotMember(id));
    FilterKeepsAll(ui.relations, NotTouching(id));
  }

  /** Deleting keeps the ids distinct. */
  lemma DeleteKeepsIdsUnique(ui: Ui, id: int)
    requires IdsUnique(ui.people)
    ensures IdsUnique(DeletePerson(ui, id).people)
  {
    FilterKeepsIdsUnique(ui.people, NotMember(id));
  }

  /** Filtering a list with distinct ids leaves them distinct. */
  lemma {:induction false} FilterKeepsIdsUnique(s: seq<Member>, keep: Member -> bool)
    requires IdsUnique(s)
    ensures IdsUnique(Filter(s, keep))
  {
    if s != [] {
      assert IdsUnique(s[1..]) by {
        forall i, j | 0 <= i < j < |s[1..]| ensures s[1..][i].id != s[1..][j].id {
          assert s[1..][i] == s[i + 1] && s[1..][j] == s[j + 1];
        }
      }
      FilterKeepsIdsUnique(s[1..], keep);
      var rest := Filter(s[1..], keep);
      forall x | x in rest ensures x.id != s[0].id {
        var k :| 0 <= k < |s[1..]| && s[1..][k] == x;
        assert s[k + 1] == x;
      }
    }
  }

  /** Applying the same edit twice is applying it once, whatever id the
      patch writes. */
  lemma UpdateIdempotent(ui: Ui, id: int, patch: Patch)
    ensures UpdatePerson(UpdatePerson(ui, id, patch), id, patch) == UpdatePerson(ui, id, patch)
  {
  }

  /** Editing an id nobody has changes nothing. */
  lemma UpdateUnknownIsIdentity(ui: Ui, id: int, patch: Patch)
    requires forall p :: p in ui.people ==> p.id != id
    ensures UpdatePerson(ui, id, patch) == ui
  {
    var r := UpdatePerson(ui, id, patch);
    forall k | 0 <= k < |ui.people| ensures r.people[k] == ui.people[k] {
      assert ui.people[k] in ui.people;
    }
  }

  /** The rename the member menu performs keeps every id and group, so ids
      stay distinct. */
  lemma RenameKeepsIdsAndGroups(ui: Ui, id: int, name: string)
    requires IdsUnique(ui.people)
    ensures var r := UpdatePerson(ui, id, Patch(None, Some(name), None)).people;
      && (forall k :: 0 <= k < |r| ==> r[k].id == ui.people[k].id && r[k].group == ui.people[k].group)
      && IdsUnique(r)
  {
  }

  /** A relation from a member to itself is accepted. */
  lemma AddRelationAcceptsSelf(ui: Ui, x: int, text: string)
    requires text != []
    ensures AddRelation(ui.(relationForm := RelationForm(Some(x), Some(x), text))).relations
         == ui.relations + [Relation(x, x, text)]
  {
  }

  /** Submitting the same relation twice stores it twice. */
  lemma AddRelationKeepsDuplicates(ui: Ui, form: RelationForm)
    requires form.from.Some? && form.to.Some? && form.text != []
    ensures var once := AddRelation(ui.(relationForm := form));
      var twice := AddRelation(once.(relationForm := form));
      && |twice.relations| == |ui.relations| + 2
      && twice.relations[|ui.relations|] == twice.relations[|ui.relations| + 1]
  {
  }

  // ---- Colours ----

  const GroupColors: map<string, string> :=
    map["family" := "#ff9999", "friend" := "#99ccff", "work" := "#99ff99", "other" := "#cccccc"]

  /** The member list's badge: the group's colour, or no background. */
  function BadgeColor(group: string): (c: Option<string>)
    ensures c.Some? <==> group in {"family", "friend", "work", "other"}
  {
    if group in GroupColors then Some(GroupColors[group]) else None
  }

  /** A graph node's colour: `groupColors[group] || "#ccc"`. */
  function NodeColor(group: string): (c: string)
    ensures group == "family" ==> c == "#ff9999"
    ensures group == "friend" ==> c == "#99ccff"
    ensures group == "work" ==> c == "#99ff99"
    ensures group == "other" ==> c == "#cccccc"
    ensures c == "#ccc" <==> group !in {"family", "friend", "work", "other"}
  {
    var known := BadgeColor(group);
    if known.Some? && known.value != [] then known.value else "#ccc"
  }

  /** Every colour the map holds is non-empty, so the fallback applies
      exactly where the badge has none. */
  lemma NodeColorFallsBackOnlyWithoutBadge(group: string)
    ensures BadgeColor(group).None? <==> NodeColor(group) == "#ccc"
    ensures BadgeColor(group).Some? ==> NodeColor(group) == BadgeColor(group).value
  {
  }
}
