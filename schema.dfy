/** Request-body validation of the people/relationships API: `personSchema`,
    its `.partial()` form, and `relationshipSchema`. Validation collects one
    issue per failing check of every field, as a schema library's `safeParse`
    does, and on success yields the parsed fields. */
module Schema {
  import opened Common

  /** A field of a JSON request body. `Missing` is a key the body does not
      carry; `Other` is any non-string, non-number value (boolean, array,
      object). */
  datatype Value = Missing | Null | Str(s: string) | Num(x: real) | Other

  datatype PersonBody = PersonBody(
    name: Value, dob: Value, phone: Value, email: Value, notes: Value, groupTag: Value)

  datatype RelationshipBody = RelationshipBody(
    personId: Value, relatedPersonId: Value, relationshipType: Value)

  /** Why a check failed: wrong JSON type (also a missing required key), a
      fractional number where an integer is required, a value below its
      minimum (an empty string, a non-positive number), or a malformed email.
      These are names for the failing check, not zod's issue code strings. */
  datatype IssueCode = InvalidType | NotInteger | TooSmall | InvalidEmail

  datatype Issue = Issue(path: string, code: IssueCode)

  /** A parsed optional, nullable string: key absent, explicit null, or a string. */
  datatype Field = Absent | Nulled | Given(s: string)

  /** Parsed person fields; `name` is `None` only under the partial schema. */
  datatype PersonFields = PersonFields(
    name: Option<string>, dob: Field, phone: Field, email: Field, notes: Field, groupTag: Field)

  datatype RelationshipFields = RelationshipFields(
    personId: int, relatedPersonId: int, relationshipType: string)

  // ---- Validity of one field, stated on its own ----

  /** `z.string().min(1)`, made optional by `.partial()`. */
  predicate NonEmptyStringOk(v: Value, optional: bool)
  {
    (optional && v.Missing?) || (v.Str? && v.s != "")
  }

  /** `z.string().optional().nullable()`. */
  predicate NullableStringOk(v: Value)
  {
    v.Missing? || v.Null? || v.Str?
  }

  /** `z.string().email().optional().nullable()`; the address syntax is the
      caller-supplied `emailOk`. */
  predicate NullableEmailOk(v: Value, emailOk: string -> bool)
  {
    v.Missing? || v.Null? || (v.Str? && emailOk(v.s))
  }

  /** `z.number().int().positive()`. */
  predicate PositiveIntOk(v: Value)
  {
    v.Num? && v.x.Floor as real == v.x && v.x > 0.0
  }

  // ---- The issues each check reports ----

  function NonEmptyStringIssues(v: Value, optional: bool): (r: seq<IssueCode>)
    ensures r == [] <==> NonEmptyStringOk(v, optional)
  {
    match v
    case Missing => if optional then [] else [InvalidType]
    case Str(s) => if |s| >= 1 then [] else [TooSmall]
    case _ => [InvalidType]
  }

  function NullableStringIssues(v: Value): (r: seq<IssueCode>)
    ensures r == [] <==> NullableStringOk(v)
  {
    match v
    case Missing => []
    case Null => []
    case Str(_) => []
    case _ => [InvalidType]
  }

  function NullableEmailIssues(v: Value, emailOk: string -> bool): (r: seq<IssueCode>)
    ensures r == [] <==> NullableEmailOk(v, emailOk)
  {
    match v
    case Missing => []
    case Null => []
    case Str(s) => if emailOk(s) then [] else [InvalidEmail]
    case _ => [InvalidType]
  }

  /** Both number checks run, so -1.5 reports two issues. */
  function PositiveIntIssues(v: Value): (r: seq<IssueCode>)
    ensures r == [] <==> PositiveIntOk(v)
  {
    match v
    case Num(x) =>
      (if x.Floor as real == x then [] else [NotInteger]) + (if x > 0.0 then [] else [TooSmall])
    case _ => [InvalidType]
  }

  /** Tag each issue code with the field it belongs to: a field's issues
      name that field, and name it only when it has some. */
  function At(path: string, codes: seq<IssueCode>): (r: seq<Issue>)
    ensures |r| == |codes|
    ensures forall i :: 0 <= i < |r| ==> r[i] == Issue(path, codes[i])
    ensures Paths(r) == if codes == [] then {} else {path}
  {
    var r := seq(|codes|, i requires 0 <= i < |codes| => Issue(path, codes[i]));
    assert codes != [] ==> r[0].path == path;
    r
  }

  function PersonIssues(b: PersonBody, partial: bool, emailOk: string -> bool): seq<Issue>
  {
    At("name", NonEmptyStringIssues(b.name, partial))
    + At("dob", NullableStringIssues(b.dob))
    + At("phone", NullableStringIssues(b.phone))
    + At("email", NullableEmailIssues(b.email, emailOk))
    + At("notes", NullableStringIssues(b.notes))
    + At("group_tag", NullableStringIssues(b.groupTag))
  }

  function RelationshipIssues(b: RelationshipBody): seq<Issue>
  {
    At("person_id", PositiveIntIssues(b.personId))
    + At("related_person_id", PositiveIntIssues(b.relatedPersonId))
    + At("relationship_type", NonEmptyStringIssues(b.relationshipType, false))
  }

  /** The fields a body fails, by their JSON names. */
  function PersonFailures(b: PersonBody, partial: bool, emailOk: string -> bool): set<string>
  {
    (if NonEmptyStringOk(b.name, partial) then {} else {"name"})
    + (if NullableStringOk(b.dob) then {} else {"dob"})
    + (if NullableStringOk(b.phone) then {} else {"phone"})
    + (if NullableEmailOk(b.email, emailOk) then {} else {"email"})
    + (if NullableStringOk(b.notes) then {} else {"notes"})
    + (if NullableStringOk(b.groupTag) then {} else {"group_tag"})
  }

  function RelationshipFailures(b: RelationshipBody): set<string>
  {
    (if PositiveIntOk(b.personId) then {} else {"person_id"})
    + (if PositiveIntOk(b.relatedPersonId) then {} else {"related_person_id"})
    + (if NonEmptyStringOk(b.relationshipType, false) then {} else {"relationship_type"})
  }

  function Paths(issues: seq<Issue>): set<string>
  {
    set i | 0 <= i < |issues| :: issues[i].path
  }

  // ---- Parsing ----

  /** The parsed field records the body's value: an absent key stays absent,
      null stays null, and a string is kept as given. */
  predicate Parsed(v: Value, f: Field)
  {
    (v.Missing? && f.Absent?) || (v.Null? && f.Nulled?) || (v.Str? && f == Given(v.s))
  }

  /** An absent key stays absent in the parsed object; null and strings are kept. */
  function ToField(v: Value): (f: Field)
    requires NullableStringOk(v)
    ensures v.Missing? <==> f.Absent?
    ensures v.Null? <==> f.Nulled?
    ensures v.Str? ==> f == Given(v.s)
  {
    match v
    case Str(s) => Given(s)
    case Null => Nulled
    case _ => Absent
  }

  /** `personSchema.safeParse` (or `personSchema.partial().safeParse` when
      `partial`): every failing field's issues, or the parsed fields. */
  function ParsePerson(b: PersonBody, partial: bool, emailOk: string -> bool)
    : (r: Result<PersonFields, seq<Issue>>)
    ensures r.Err? ==> r.error != []
    ensures r.Ok? ==> !partial ==> r.value.name.Some?
    ensures r.Ok? ==> r.value.name.Some? ==> b.name == Str(r.value.name.value) && r.value.name.value != ""
    ensures r.Ok? ==> r.value.name.None? ==> b.name.Missing?
    ensures r.Ok? ==> r.value.email.Given? ==> emailOk(r.value.email.s)
    ensures r.Ok? ==> && Parsed(b.dob, r.value.dob) && Parsed(b.phone, r.value.phone)
                      && Parsed(b.email, r.value.email) && Parsed(b.notes, r.value.notes)
                      && Parsed(b.groupTag, r.value.groupTag)
    ensures r.Err? <==> PersonIssues(b, partial, emailOk) != []
    ensures r.Err? ==> r.error == PersonIssues(b, partial, emailOk)
  {
    var issues := PersonIssues(b, partial, emailOk);
    if issues != [] then Err(issues)
    else
      assert NonEmptyStringIssues(b.name, partial) == [];
      assert NullableStringIssues(b.dob) == [] && NullableStringIssues(b.phone) == [];
      assert NullableEmailIssues(b.email, emailOk) == [] && NullableStringIssues(b.notes) == [];
      assert NullableStringIssues(b.groupTag) == [];
      Ok(PersonFields(
        if b.name.Str? then Some(b.name.s) else None,
        ToField(b.dob), ToField(b.phone), ToField(b.email), ToField(b.notes), ToField(b.groupTag)))
  }

  /** `relationshipSchema.safeParse`. */
  function ParseRelationship(b: RelationshipBody): (r: Result<RelationshipFields, seq<Issue>>)
    ensures r.Err? <==> RelationshipIssues(b) != []
    ensures r.Err? ==> r.error == RelationshipIssues(b)
    ensures r.Ok? ==> r.value.personId >= 1 && b.personId == Num(r.value.personId as real)
    ensures r.Ok? ==> r.value.relatedPersonId >= 1 && b.relatedPersonId == Num(r.value.relatedPersonId as real)
    ensures r.Ok? ==> r.value.relationshipType != "" && b.relationshipType == Str(r.value.relationshipType)
  {
    var issues := RelationshipIssues(b);
    if issues != [] then Err(issues)
    else
      assert PositiveIntIssues(b.personId) == [] && PositiveIntIssues(b.relatedPersonId) == [];
      assert NonEmptyStringIssues(b.relationshipType, false) == [];
      Ok(RelationshipFields(b.personId.x.Floor, b.relatedPersonId.x.Floor, b.relationshipType.s))
  }

  // ---- What validation promises ----

  lemma PathsOfConcat(a: seq<Issue>, b: seq<Issue>)
    ensures Paths(a + b) == Paths(a) + Paths(b)
  {
    forall p | p in Paths(a + b) ensures p in Paths(a) + Paths(b) {
      var i :| 0 <= i < |a + b| && (a + b)[i].path == p;
      if i >= |a| {
        assert b[i - |a|].path == p;
      }
    }
    forall p | p in Paths(a) ensures p in Paths(a + b) {
      var i :| 0 <= i < |a| && a[i].path == p;
      assert (a + b)[i].path == p;
    }
    forall p | p in Paths(b) ensures p in Paths(a + b) {
      var i :| 0 <= i < |b| && b[i].path == p;
      assert (a + b)[|a| + i].path == p;
    }
  }

  /** The issues name exactly the fields that fail, all of them, not just the first. */
  lemma PersonIssuesNameEveryFailure(b: PersonBody, partial: bool, emailOk: string -> bool)
    ensures Paths(PersonIssues(b, partial, emailOk)) == PersonFailures(b, partial, emailOk)
  {
    var n := At("name", NonEmptyStringIssues(b.name, partial));
    var d := At("dob", NullableStringIssues(b.dob));
    var p := At("phone", NullableStringIssues(b.phone));
    var e := At("email", NullableEmailIssues(b.email, emailOk));
    var o := At("notes", NullableStringIssues(b.notes));
    var g := At("group_tag", NullableStringIssues(b.groupTag));
    PathsOfConcat(n, d);
    PathsOfConcat(n + d, p);
    PathsOfConcat(n + d + p, e);
    PathsOfConcat(n + d + p + e, o);
    PathsOfConcat(n + d + p + e + o, g);
    assert Paths(n + d + p + e + o + g)
        == Paths(n) + Paths(d) + Paths(p) + Paths(e) + Paths(o) + Paths(g);
  }

  /** A person body parses exactly when no field fails. */
  lemma ParsePersonIff(b: PersonBody, partial: bool, emailOk: string -> bool)
    ensures ParsePerson(b, partial, emailOk).Ok? <==> PersonFailures(b, partial, emailOk) == {}
  {
    PersonIssuesNameEveryFailure(b, partial, emailOk);
    var issues := PersonIssues(b, partial, emailOk);
    if issues != [] {
      assert issues[0].path in Paths(issues);
    }
  }

  /** The issues of a relationship body name exactly the fields that fail. */
  lemma RelationshipIssuesNameEveryFailure(b: RelationshipBody)
    ensures Paths(RelationshipIssues(b)) == RelationshipFailures(b)
  {
    var p := At("person_id", PositiveIntIssues(b.personId));
    var q := At("related_person_id", PositiveIntIssues(b.relatedPersonId));
    var t := At("relationship_type", NonEmptyStringIssues(b.relationshipType, false));
    PathsOfConcat(p, q);
    PathsOfConcat(p + q, t);
  }

  /** A relationship body parses exactly when no field fails. */
  lemma ParseRelationshipIff(b: RelationshipBody)
    ensures ParseRelationship(b).Ok? <==> RelationshipFailures(b) == {}
  {
    RelationshipIssuesNameEveryFailure(b);
    var issues := RelationshipIssues(b);
    if issues != [] {
      assert issues[0].path in Paths(issues);
    }
  }

  /** An empty name is refused by both schemas, with a too-small issue on `name`. */
  lemma EmptyNameRejected(b: PersonBody, partial: bool, emailOk: string -> bool)
    requires b.name == Str("")
    ensures ParsePerson(b, partial, emailOk).Err?
    ensures Issue("name", TooSmall) in ParsePerson(b, partial, emailOk).error
  {
    assert PersonIssues(b, partial, emailOk)[0] == Issue("name", TooSmall);
  }

  /** Whatever the full schema accepts, the partial schema accepts with the same fields. */
  lemma PartialAcceptsWhatFullAccepts(b: PersonBody, emailOk: string -> bool)
    requires ParsePerson(b, false, emailOk).Ok?
    ensures ParsePerson(b, true, emailOk) == ParsePerson(b, false, emailOk)
  {
    ParsePersonIff(b, false, emailOk);
    ParsePersonIff(b, true, emailOk);
  }

  /** The partial schema accepts an empty body, every field absent. */
  lemma PartialAcceptsEmptyBody(emailOk: string -> bool)
    ensures ParsePerson(PersonBody(Missing, Missing, Missing, Missing, Missing, Missing), true, emailOk)
         == Ok(PersonFields(None, Absent, Absent, Absent, Absent, Absent))
  {
  }
}
