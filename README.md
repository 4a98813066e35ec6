# Family and friends network: a Dafny model

The system keeps a small address book of people and the directed, labelled
relationships between them. An Express API stores them in two SQLite tables,
`people` and `relationships`. For any person it serves a "network" view: that
person as the centre, their direct neighbours, and the connecting edges, laid
out for vis-network. A React page keeps its own in-memory list of members and
relations and draws them.

This project models:

- the API's store and handlers (`backend/server.js`);
- the page's four list reducers and its colour lookup (`frontend/src/App.jsx`).

It proves what each one promises.

Modules:

- `Common` (common.dfy): `Option`, `Result`, and JavaScript's `Array.prototype.filter` as `Filter`, with its laws: concatenation, idempotence, absorption, commutation, and keeping a strictly increasing key order.
- `Schema` (schema.dfy): the zod request schemas.
  - A JSON body is a record of `Value`s: missing, null, string, number or any other JSON value.
  - Parsing checks every field in order. It reports one issue per failing check, tagged with the field's path.
  - It returns either the parsed fields or all of the issues.
  - The issue list names exactly the fields that fail, and a body parses exactly when none fails.
- `Tables` (tables.dfy): the two tables and the store invariant `Consistent`, with one lemma per handler showing that the handler keeps it.
  - Each table is a sequence of rows in rowid order under its AUTOINCREMENT counter.
  - Also here: the rows the person handlers write, the ordered checks of POST /relationships (`Admit`), and the seed data.
- `Network` (network.dfy): the GET /network/:id projection as a function, and what it promises.
  - The two joined queries are filters over the relationships.
  - The neighbour `Map` is a map plus its keys in insertion order.
  - Proved: the centre comes first; neighbour ids are distinct, and they are exactly the other ends of the relationships touching the centre; neighbours appear in order of first appearance with the last row's values; edges are the touching relationships in stored direction, outbound first; dangling relationships are invisible.
- `Server` (server.dfy): class `Store`, whose fields are the two tables and their counters, with one method per route.
  - Each method returns the status code and JSON payload and states the new state of the tables.
  - Every mutating method keeps `Valid()`.
  - GET /network/:id keeps the handler's two loops. Each loop is proved to compute `Projection`.
- `Client` (client.dfy): the page's view state as a value, with `addPerson`, `deletePerson`, `updatePerson` and `addRelation` as functions from one view to the next. It also has the `groupColors` lookup.

Decisions in the model:

- **Tables as row sequences.** The tables are sequences in rowid order, not maps keyed by id. A rowid table is stored in that order, and a full scan walks it in that order. Ids are unique because they strictly increase (`KeyedTable`). SQLite promises no row order for a query without ORDER BY, so the order the model gives to query results is an assumption (see "## Left out").
- **Whether the cascade runs is a parameter.** The schema declares `ON DELETE CASCADE` (backend/server.js:31-32). The server never runs `PRAGMA foreign_keys = ON`, and the comment at backend/server.js:100 makes the cascade conditional on it. Whether SQLite enforces foreign keys without the PRAGMA depends on how the driver's SQLite was built, which the source does not decide.
  - `Store.foreignKeys` records which case holds, and `DeletePerson` cascades only when it is true. The model proves its properties for both values.
  - Without the cascade, a deleted person's relationships stay in the table (`DeleteWithoutCascadeStrands`).
  - They never show in a network view, because both queries inner-join on `people` (`CascadeInvisibleToProjection`, `DeletedPersonNotShown`).
- **`group_tag` under `??` and `||`.** Create and update store `group_tag ?? "friend"`, so an empty string is stored as "". The network view shows `group_tag || "friend"`, so the same person is drawn in the "friend" group (`CreatedRow`, `GroupOf`).
- **Validation reports both number checks.** `-1.5` for a person id reports both "not an integer" and "too small", because zod runs every check of a field.

## Model

| member | source | states |
|---|---|---|
| Common.Filter | frontend/src/App.jsx:57-58 | the result is no longer than the input and holds exactly the input's elements that the test accepts |
| Common.FilterConcat | frontend/src/App.jsx:57-58 | filtering a concatenation filters each part, so kept elements keep their relative order |
| Common.FilterKeepsAll | frontend/src/App.jsx:57-58 | a filter that rejects nothing returns the list unchanged |
| Common.FilterIdempotent | frontend/src/App.jsx:57-58 | filtering twice with one test equals filtering once |
| Common.FilterAbsorbs | backend/server.js:144-156 | a first filter that accepts all the second accepts makes no difference |
| Common.FilterCommutes | frontend/src/App.jsx:56-59 | two filters give the same list in either order |
| Common.FilterKeepsIncreasing | backend/server.js:16 | deleting rows keeps a table in strictly increasing rowid order |
| Schema.NonEmptyStringIssues | backend/server.js:37 | `z.string().min(1)` reports no issue exactly when the value is a non-empty string, or absent where the key is optional |
| Schema.NullableStringIssues | backend/server.js:38-39 | `z.string().optional().nullable()` reports no issue exactly for absent, null or a string |
| Schema.NullableEmailIssues | backend/server.js:40 | the email field reports no issue exactly for absent, null or a string that is an address |
| Schema.PositiveIntIssues | backend/server.js:46-47 | `z.number().int().positive()` reports no issue exactly for a positive whole number |
| Schema.At | backend/server.js:65 | one issue per failed check, each tagged with its field; the list names that field when it has an issue, and names nothing otherwise |
| Schema.ToField | backend/server.js:38-66 | an absent key stays absent in the parsed data, null stays null, and a string is kept as given |
| Schema.ParsePerson | backend/server.js:36-43 | refused exactly when some field reports an issue, and the refusal carries every issue; a full parse has a name; a parsed name is the body's non-empty string; each optional field is absent, null or the body's string exactly as the body has it; a parsed email passed the address check |
| Schema.ParseRelationship | backend/server.js:45-49 | the body is refused exactly when some field has an issue, and the refusal lists exactly those issues; parsed ids are the body's positive whole numbers and the type is the body's non-empty string |
| Schema.PathsOfConcat | backend/server.js:65 | the paths of joined issue lists are the union of their paths |
| Schema.PersonIssuesNameEveryFailure | backend/server.js:36-43 | the issues name exactly the person fields that fail, not just the first |
| Schema.ParsePersonIff | backend/server.js:64-65 | a person body is accepted if and only if no field fails |
| Schema.RelationshipIssuesNameEveryFailure | backend/server.js:45-49 | the issues name exactly the relationship fields that fail |
| Schema.ParseRelationshipIff | backend/server.js:111-112 | a relationship body is accepted if and only if no field fails |
| Schema.EmptyNameRejected | backend/server.js:37 | an empty name is refused with a "too small" issue at `name`, in both schemas |
| Schema.PartialAcceptsWhatFullAccepts | backend/server.js:77 | every body the create schema accepts is accepted by the update schema |
| Schema.PartialAcceptsEmptyBody | backend/server.js:77 | the update schema accepts an empty body and parses it to no fields |
| Tables.AppendKeepsKeyed | backend/server.js:16-26 | appending rows issued after the counter keeps a table in rowid order under the new counter |
| Tables.OrNull | backend/server.js:71 | `?? null`: a given string is stored, and an absent or null field becomes NULL |
| Tables.OrFriend | backend/server.js:71 | `?? "friend"`: a stored tag is kept, even an empty one, and NULL becomes "friend" |
| Tables.Overlay | backend/server.js:82-90 | one column of the spread: an absent key keeps the old value, null clears it, and a string replaces it |
| Tables.CreatedRow | backend/server.js:66-71 | the inserted row has the new id and the body's name; dob, phone, email and notes hold the given string or NULL; `group_tag` is the given string, or "friend" when absent or null |
| Tables.CreatedRowRecordsBody | backend/server.js:63-74 | create then get: the row found under the issued id has the body's name, its dob, phone, email and notes (NULL when absent or null) and its `group_tag` or "friend" |
| Tables.Merged | backend/server.js:82-92 | the id is kept; a supplied name replaces the old one; each optional column is overwritten by a given string, cleared by null, and kept when absent; `group_tag` is the given string, "friend" when null, and the old tag (or "friend") when absent |
| Tables.MergeKeepsUnsupplied | backend/server.js:82-92 | fields the body omits keep their values; a null or missing `group_tag` becomes "friend" |
| Tables.MergeCompleteIsCreate | backend/server.js:71-92 | a body that supplies every column writes the row a create would write |
| Tables.MergeIdempotent | backend/server.js:82-92 | repeating an update changes nothing further |
| Tables.MergeEmptyIsIdentity | backend/server.js:82-92 | an empty update leaves a row with a group unchanged |
| Tables.Find | backend/server.js:58 | a found row is in the table and has the id; nothing is found exactly when no row has it |
| Tables.FindUnique | backend/server.js:16 | with increasing ids, the row found is the only row with that id |
| Tables.Replace | backend/server.js:84 | the update rewrites exactly the rows with the id and keeps every id and the row count |
| Tables.ReplaceKeepsIds | backend/server.js:84-95 | after an update the same ids are found, and the id finds the new row |
| Tables.RemovePerson | backend/server.js:99 | the delete keeps exactly the rows with another id |
| Tables.RemovePersonIdempotent | backend/server.js:99 | deleting a person twice is deleting it once |
| Tables.RemoveAbsentPerson | backend/server.js:99 | deleting an id no row has changes nothing |
| Tables.RemoveRelationship | backend/server.js:134 | the delete keeps exactly the relationships with another id |
| Tables.RemoveRelationshipIdempotent | backend/server.js:134 | deleting a relationship twice is deleting it once |
| Tables.RemoveAbsentRelationship | backend/server.js:134 | deleting an id no relationship has changes nothing |
| Tables.Detach | backend/server.js:31-32 | the cascade keeps exactly the relationships touching the deleted id at neither end |
| Tables.DetachIdempotent | backend/server.js:31-32 | cascading twice is cascading once |
| Tables.DetachUntouched | backend/server.js:31-32 | a person no relationship touches cascades to nothing |
| Tables.DeleteAbsentPersonChangesNothing | backend/server.js:98-102 | deleting an absent person changes neither the people table nor, through the cascade, the relationships |
| Tables.FilterKeepsRelationshipInvariants | backend/server.js:30-32 | deleting relationships keeps "no self relation" and unique triples |
| Tables.CascadeKeepsReferences | backend/server.js:31-32 | with cascading delete, every remaining relationship still has both people |
| Tables.DeleteWithoutCascadeStrands | backend/server.js:99-100 | without enforced foreign keys, deleting a person leaves a relationship pointing at no one |
| Tables.Admit | backend/server.js:110-131 | the checks run in the handler's order and each refusal names the first that fails: schema exactly when parsing fails (carrying the parse's issues), self relation exactly when both ids are equal, unknown person exactly when the ids differ and one is missing, duplicate exactly when both exist and the triple is stored; an admitted body is the parsed one |
| Tables.StatusOf | backend/server.js:112-130 | every refusal is a 400 or a 409, and a 409 exactly for a duplicate |
| Server.RejectionPayload | backend/server.js:112-130 | a schema refusal is sent as zod's issues, every other refusal as an error message, which is never empty |
| Server.RejectionPayloadInjective | backend/server.js:112-130 | different refusals are sent with different bodies, so the body tells which check refused |
| Tables.AdmitIff | backend/server.js:110-131 | a relationship is inserted if and only if it parses, joins two different existing people, and its triple is new |
| Tables.SelfRelationRefusedRegardless | backend/server.js:114-116 | a self relation is refused with the same answer whether or not the person exists |
| Tables.DuplicateMeansStored | backend/server.js:128-130 | a 409 is only ever a repeat of a stored triple |
| Tables.AdmittedKeepsInvariants | backend/server.js:114-127 | inserting an admitted relationship keeps "no self relation", unique triples and resolvable references |
| Tables.SeedPeople | backend/server.js:184-189 | four people are seeded under the four ids after the counter |
| Tables.SeedRelationships | backend/server.js:191-194 | three relationships are seeded under the three ids after the counter, each between two of the four seeded people, none a self relation, with distinct triples |
| Tables.SeedPeopleFound | backend/server.js:186-189 | after seeding onto any table, each of the four seeded ids finds some row |
| Tables.SeedPersonFoundExactly | backend/server.js:186-189 | when the existing rows have ids at or below the counter, each seeded id finds exactly the seeded person issued it |
| Tables.SeedTriplesUnique | backend/server.js:191-194 | the seeded relationships are new triples and none is a self relation |
| Tables.SeedReferencesResolve | backend/server.js:186-194 | seeding keeps every reference resolvable, and the seeded relationships resolve to the seeded people |
| Tables.SeedRowsKeyed | backend/server.js:186-194 | the seeded rows are in rowid order under the advanced counters, above the old counters, and refer only to the seeded people |
| Tables.FoundIsIssued | backend/server.js:117-119 | a person found by id holds an id the people counter has issued |
| Tables.FilterKeepsKeyed | backend/server.js:98-102 | a delete keeps a table in rowid order under its counter |
| Tables.CreatePersonKeepsConsistent | backend/server.js:63-74 | inserting a person under the next id keeps the store consistent, and the id finds the new row |
| Tables.UpdatePersonKeepsConsistent | backend/server.js:76-96 | updating an existing person keeps the store consistent, and the id finds the written row |
| Tables.DeletePersonKeepsConsistent | backend/server.js:98-102 | deleting a person, with or without the cascade, keeps the store consistent |
| Tables.CreateRelationshipKeepsConsistent | backend/server.js:110-131 | inserting an admitted relationship under the next id keeps the store consistent |
| Tables.DeleteRelationshipKeepsConsistent | backend/server.js:133-136 | deleting a relationship keeps the store consistent |
| Tables.SeedOntoKeepsConsistent | backend/server.js:184-194 | seeding onto a consistent store keeps it consistent |
| Tables.SeedKeepsConsistent | backend/server.js:179-197 | seeding, with or without clearing first, keeps the store consistent |
| Network.GroupOf | backend/server.js:162-171 | the shown group is the stored tag when that is non-empty, and "friend" when it is NULL or empty |
| Network.Outbound | backend/server.js:144-149 | one joined row per outbound relationship whose target has a people row, in table order, joined to that person |
| Network.Inbound | backend/server.js:151-156 | one joined row per inbound relationship whose source has a people row, in table order, joined to that person |
| Network.NeighborMap.Set | backend/server.js:162-166 | `Map.set` appends a new key, keeps an existing key's place, and replaces the value |
| Network.Collect | backend/server.js:158-168 | setting the entries in turn yields a well-formed map |
| Network.CollectSnoc | backend/server.js:161-168 | setting one more entry is one more `set` |
| Network.OutRowsSnoc | backend/server.js:161-163 | one more outbound row adds one neighbour entry and one edge, at the end |
| Network.InRowsSnoc | backend/server.js:165-167 | one more inbound row adds one neighbour entry and one edge, at the end |
| Network.CollectInboundSnoc | backend/server.js:165-166 | after the outbound entries, one more inbound row is one more `set` on the map |
| Network.InEdgesAfterSnoc | backend/server.js:165-167 | after the outbound edges, one more inbound row pushes one more edge |
| Network.CollectKeys | backend/server.js:158-168 | the map's keys are exactly the ids that occur among the entries |
| Network.CollectLastWrite | backend/server.js:162-166 | each key holds the last entry with that id |
| Network.CollectFirstAppearance | backend/server.js:172 | keys are ordered by the position of each id's first entry |
| Network.FirstIndex | backend/server.js:172 | the index found holds the id, and no earlier entry does |
| Network.Projection | backend/server.js:139-176 | the view is missing exactly when the centre has no people row; otherwise it has at least the centre node |
| Network.View | backend/server.js:170-175 | the response lists the centre node first, and has exactly one edge per joined row |
| Network.ProjectionOf | backend/server.js:170-175 | the view is the centre node, then the map's values, with outbound edges before inbound ones |
| Network.ProjectionNodes | backend/server.js:158-172 | after the centre, the nodes are the map's values in key insertion order, one per key |
| Network.ProjectionEdges | backend/server.js:159-174 | the edges are the outbound edges followed by the inbound ones |
| Network.CenterIsFound | backend/server.js:140-171 | a view exists only for a centre with a people row, and its first node has the centre's id |
| Network.CenterComesFirst | backend/server.js:171 | the first node is the centre, drawn as a dot, its group `group_tag || "friend"` |
| Network.NeighborIdsDistinct | backend/server.js:158-172 | no neighbour id is listed twice |
| Network.OutboundHas | backend/server.js:144-149 | every outbound relationship whose target has a people row has its joined row |
| Network.InboundHas | backend/server.js:151-156 | every inbound relationship whose source has a people row has its joined row |
| Network.EntriesAt | backend/server.js:161-166 | entry j comes from outbound row j, or from the matching inbound row after all outbound rows |
| Network.EntryIsNeighbor | backend/server.js:144-166 | each entry set in the map is the other end of a touching relationship with a people row |
| Network.NeighborIsEntry | backend/server.js:144-166 | the other end of each touching relationship with a people row is set in the map |
| Network.EntriesOccur | backend/server.js:144-168 | an id is set in the map if and only if it is the other end of a touching relationship with a people row |
| Network.NeighborKeys | backend/server.js:158-168 | the map holds an id if and only if that id is the other end of a touching relationship with a people row |
| Network.NeighborsAreOtherEnds | backend/server.js:144-172 | a node after the centre has a given id if and only if that id is the other end, with a people row, of a relationship touching the centre |
| Network.CenterNotNeighbor | backend/server.js:158-172 | since self relations are refused, the centre never appears among its own neighbours |
| Network.NeighborFromPeopleRow | backend/server.js:145-166 | each neighbour carries the name and group of its own people row |
| Network.NeighborOrder | backend/server.js:161-172 | neighbours appear in the order of their ids' first occurrence, outbound rows before inbound |
| Network.NeighborLastWrite | backend/server.js:162-166 | each neighbour is the entry of the last row that names it |
| Network.EdgesFollowRows | backend/server.js:159-168 | one edge per joined row: outbound edges leave the centre, then inbound edges enter it, each other end having a people row |
| Network.EdgesAt | backend/server.js:161-167 | edge k comes from outbound row k, or from the matching inbound row after all outbound rows |
| Network.EdgeIsTouching | backend/server.js:159-168 | every edge is a touching relationship in its stored direction |
| Network.TouchingHasEdge | backend/server.js:144-168 | every touching relationship whose other end exists has its edge |
| Network.EdgesAreTouchingRelationships | backend/server.js:144-168 | an edge is in the view if and only if it is a touching relationship whose other end exists, in stored direction |
| Network.ProjectionIgnoresDangling | backend/server.js:147-154 | relationships whose ends lack people rows do not change the view |
| Network.CascadeInvisibleToProjection | backend/server.js:98-102 | after deleting a person, the view is the same with or without the cascade |
| Network.DeletedPersonNotShown | backend/server.js:144-156 | a deleted person appears in no view, neither as a node nor on an edge |
| Network.PramodRows | backend/server.js:140-156 | for Pramod, brother of Amit, Pramod's queries return one outbound row (Amit) and no inbound row |
| Network.AmitRows | backend/server.js:140-156 | Amit's queries return no outbound row and one inbound row (Pramod) |
| Network.CollectOne | backend/server.js:158-172 | a map with one entry lists exactly that entry |
| Network.OneOutbound | backend/server.js:158-175 | a centre with a single outbound row gets one neighbour and one outgoing edge |
| Network.OneInbound | backend/server.js:158-175 | a centre with a single inbound row gets one neighbour and one incoming edge |
| Network.BrotherFromPramod | backend/server.js:139-176 | Pramod, brother of Amit: Pramod's view is Pramod then Amit, with one edge from Pramod to Amit |
| Network.BrotherFromAmit | backend/server.js:139-176 | Amit's view is Amit then Pramod, and the edge still runs from Pramod to Amit |
| Server.Store.constructor | backend/server.js:14-34 | a fresh database has two empty tables and consistent counters |
| Server.Store.ListPeople | backend/server.js:52-55 | 200 with every people row |
| Server.Store.GetPerson | backend/server.js:57-61 | 404 "Not found" exactly when no row has the id, otherwise 200 with the row the lookup finds |
| Server.Store.CreatePerson | backend/server.js:63-74 | 400 with the issues and nothing stored, or 201 with the row built from the body appended under the next id; the store stays consistent |
| Server.Store.CreateThenGet | backend/server.js:57-74 | after a successful create, a get of the issued id returns the created row, which holds the body's values, the new id and the defaulted `group_tag` |
| Server.Store.InsertPerson | backend/server.js:67-72 | the row issued the next id is appended and findable by it; the store stays consistent |
| Server.Store.UpdatePerson | backend/server.js:76-96 | validation before lookup: 400 with the issues, 404 "Not found", or 200 with the merged row written in place; the store stays consistent |
| Server.Store.DeletePerson | backend/server.js:98-102 | always 204; exactly the row with that id is gone, and an absent id changes nothing; relationships go only when foreign keys are enforced |
| Server.Store.ListRelationships | backend/server.js:105-108 | 200 with every relationship row |
| Server.Store.CreateRelationship | backend/server.js:110-131 | each refusal in order with its status and message and both tables unchanged, or 201 with the relationship appended under the next id |
| Server.Store.InsertRelationship | backend/server.js:122-127 | the admitted relationship is appended under the next id; the store stays consistent |
| Server.Store.DeleteRelationship | backend/server.js:133-136 | always 204; exactly the row with that id is gone, and an absent id changes nothing; deleting twice is deleting once by `RemoveRelationshipIdempotent` |
| Server.Store.GetNetwork | backend/server.js:139-176 | 404 "Person not found" when the centre is missing, otherwise 200 with exactly `Projection` |
| Server.Store.Seed | backend/server.js:179-197 | the optional clear, then four people and three relationships under the next ids; returns their ids; the store stays consistent |
| Server.Store.ClearTables | backend/server.js:181-183 | both tables become empty and the store stays consistent |
| Server.Store.InsertSeed | backend/server.js:184-194 | the four seeded people and three relationships are appended under the next ids, and the store stays consistent |
| Server.WalkOutbound | backend/server.js:158-164 | the first loop builds the map of outbound neighbours and the outbound edges |
| Server.WalkInbound | backend/server.js:165-168 | the second loop extends that map with inbound neighbours and appends the inbound edges |
| Client.AddPerson | frontend/src/App.jsx:50-54 | no-op for an empty name; otherwise exactly one member appended with the form's name, group and the given id, earlier members unchanged, form reset |
| Client.DeletePerson | frontend/src/App.jsx:56-59 | removes exactly the member with the id and every relation from or to it; each list keeps every other entry once, in its original order, and the forms are unchanged |
| Client.Merge | frontend/src/App.jsx:62 | `{...p, ...updatedData}`: each field the patch carries replaces the member's, and the others are kept |
| Client.UpdatePerson | frontend/src/App.jsx:61-63 | same length and order; only members with the id change, each field to the patch's value when the patch has one, and kept otherwise, the id included |
| Client.AddRelation | frontend/src/App.jsx:65-72 | no-op when from, to or label is empty; otherwise exactly one relation appended and the form reset |
| Client.InitialIdsUnique | frontend/src/App.jsx:7-13 | the first-render list has distinct ids, known groups and no relations, so the id invariant holds from the start |
| Client.AddFreshKeepsIdsUnique | frontend/src/App.jsx:52 | adding under an unused id keeps member ids distinct |
| Client.DeleteUndoesAdd | frontend/src/App.jsx:50-59 | deleting a member just added under a fresh id restores both lists |
| Client.DeleteIdempotent | frontend/src/App.jsx:56-59 | deleting an id twice equals deleting it once |
| Client.DeletesCommute | frontend/src/App.jsx:56-59 | two deletes give the same view in either order |
| Client.DeleteUnknownIsIdentity | frontend/src/App.jsx:56-59 | deleting an id nobody uses changes nothing |
| Client.DeleteKeepsIdsUnique | frontend/src/App.jsx:57 | deleting keeps member ids distinct |
| Client.FilterKeepsIdsUnique | frontend/src/App.jsx:57 | filtering a list with distinct ids keeps them distinct |
| Client.UpdateIdempotent | frontend/src/App.jsx:61-63 | applying the same edit twice equals applying it once, whatever id the patch writes |
| Client.UpdateUnknownIsIdentity | frontend/src/App.jsx:61-63 | editing an id nobody has changes nothing |
| Client.RenameKeepsIdsAndGroups | frontend/src/App.jsx:130-131 | the menu's rename keeps every id and group, so ids stay distinct |
| Client.AddRelationAcceptsSelf | frontend/src/App.jsx:65-72 | a relation from a member to itself is appended |
| Client.AddRelationKeepsDuplicates | frontend/src/App.jsx:65-72 | submitting the same relation twice stores it twice |
| Client.BadgeColor | frontend/src/App.jsx:17-22 | a badge colour exists exactly for the four known groups |
| Client.NodeColor | frontend/src/App.jsx:17-31 | the four known groups get their colours, and "#ccc" is used exactly for any other group |
| Client.NodeColorFallsBackOnlyWithoutBadge | frontend/src/App.jsx:31 | the node falls back to "#ccc" exactly where the badge has no colour, and otherwise uses the badge's colour |

## Left out

- HTTP plumbing is not modelled: Express routing, CORS, JSON body parsing, `app.listen` and the port (backend/server.js:1-8, 199-201). Handlers are methods that return a status and a payload.
- The database driver is not modelled: better-sqlite3, WAL mode and the SQL text itself. The statements are modelled by their effect on the row sequences.
- A body that is not a JSON object is not modelled; bodies are always records of field values.
- The zod response body is reduced to the list of issues (path and code). Zod's messages and its other fields are left out. The codes (`InvalidType`, `NotInteger`, `TooSmall`, `InvalidEmail`) are the model's own names for the check that failed, not zod's issue code strings.
- The email address syntax is not modelled. Whether a string is an address is the `emailOk` parameter.
- Route parameters are taken as integers. `Number(req.params.id)` and SQLite's comparison of a text parameter with an integer column are not modelled.
- Concurrency is not modelled. Each request runs alone, and the two network queries are not isolated from writers.
- The AUTOINCREMENT counter is unbounded. Its 64-bit limit and the "database full" error are left out.
- Server.Store.DeletePerson: the cascade is modelled as the `foreignKeys` flag. Its value depends on the compile-time default of the SQLite the driver bundles, so the model does not fix it.
- Network.Outbound, Network.Inbound: the two joined queries have no ORDER BY. The model assumes each returns its rows in rowid order of the relationships table. SQLite may instead answer them from the UNIQUE index on (person_id, related_person_id, relationship_type) and return another order. The order of the edges and the first-appearance order of the neighbours (`EdgesAt`, `EdgesFollowRows`, `NeighborOrder`, `NeighborLastWrite`) hold under this assumption. The set of nodes and edges does not depend on it (`NeighborsAreOtherEnds`, `EdgesAreTouchingRelationships`).
- Server.Store.ListPeople, Server.Store.ListRelationships: `SELECT *` without ORDER BY is modelled as returning the rows in rowid order, which SQLite does not promise.
- Server.Store.DeletePerson: its contract states that deleting an absent id leaves the people table unchanged. That deleting twice changes nothing, and that an untouched person cascades to nothing, are stated on the functions it is specified by (`RemovePersonIdempotent`, `DetachIdempotent`, `DetachUntouched`).
- Server.Store.GetNetwork: the two loops are the helper methods `WalkOutbound` and `WalkInbound`, not loops inside the handler body. This is the same computation, split so that each proof stays small.
- backend/db.ts is not part of this model; the server does not use it.
- frontend/src/components/NetworkGraph.jsx and the page's `useEffect` (frontend/src/App.jsx:24-48) are rendering into vis-network and are not modelled, apart from the node colour.
- PNG and PDF export (frontend/src/App.jsx:74-88) is left out: it is foreign I/O.
- The JSX markup and `prompt` (frontend/src/App.jsx:90-186) are UI and are not modelled. Only the rename they trigger is.
- `Date.now()` is not modelled; the id it would produce is a parameter.
- The relation form's selects are modelled as already parsed. Each select is `None` when empty, or the member id that `parseInt` would give.
- Client.NodeColor: `groupColors` is a plain object, so keys it inherits, such as "toString", would also be found. The model treats the object as the four-entry map.
