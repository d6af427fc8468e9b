# UpLove persistence layer in Dafny

UpLove keeps a couple's relationship data (persons and their necessities, todos
and things to keep, pillars of the relationship and dated "UpLoves" that praise
or ask to improve) in a SQLite database behind one service class. This project
models that validated persistence layer and proves what it guarantees:

- `Priorities` — the five pillar priority labels and the `isPriority` guard.
- `Errors` — the `DatabaseError` taxonomy (`NotFoundError`, `ValidationError`,
  `DataIntegrityError`, their codes and status codes) plus the plain errors the
  service throws.
- `Text` — the JavaScript string primitives the validator relies on: `trim`,
  `length` in UTF-16 code units, the control-character class, and decimal
  rendering of numbers in messages.
- `Validator` — `DatabaseValidator`'s guards as total functions returning a
  `Result`, with their accept-iff conditions, their check order and their
  normalised results.
- `PillarEntity` — the `Pillar` class: its constructor's range check, its
  setters updating fields in place, and the satisfaction setter's guard that can
  never fire.
- `Entities` — the values the service hands back (`Person`, `Necessity`,
  `Commitment` for both `Todo` and `ToKeep`, pillar data, `UpLove`).
- `Tables` — a relational table as a sequence of rows in insertion order, with
  the `SELECT`/`INSERT`/`UPDATE`/`DELETE` effects the service relies on.
- `Store` — the contents of the database file as one value, the views the read
  operations build from it, the referential integrity the schema keeps, and the
  order in which `clearAllData` empties the tables.
- `Laws` — for every write, what the database looks like afterwards through the
  read operations: the written entity reads back as written, every other entity
  reads as before, and the integrity is kept. Since `getUpLove` looks its pillars
  up on every read, a pillar edit shows in every UpLove naming that pillar, and a
  pillar delete makes those UpLoves unreadable.
- `Service` — `DatabaseService` as a class whose fields are the tables. Each
  operation requires the handle, validates its input, checks that what it refers
  to exists, and only then writes. `clearAllData` is one more method of it.
  Every public operation is proved against the read operations (`GetPerson`,
  `GetNecessity`, `GetCommitment`, `GetPillar`, `GetUpLove`), which are in turn
  tied to the `Store` views whose laws are proved in `Laws`.

Schema assumptions. The schema module the service loads is not part of this
model, so its foreign-key behaviour is an explicit assumption here:

- deleting a person cascades to its necessities;
- deleting an UpLove cascades to its association and item rows;
- `up_love_pillars.pillar_id` declares no foreign key, so `deletePillar` can
  leave references dangling (with `PRAGMA foreign_keys = ON`, a declared
  reference with no action would make that delete fail instead);
- repeated pillar ids in one UpLove are accepted.

## Model

| member | source | states |
|---|---|---|
| Priorities.Rank | src/entities/types/Priority.tsx:1-7 | each priority has a position within the five-entry label list |
| Priorities.Parse | src/entities/types/Priority.tsx:8-12 | the narrowing succeeds exactly when `isPriority` holds, and yields the priority whose label is the input |
| Priorities.IsPriorityExactly | src/entities/types/Priority.tsx:1-12 | `isPriority(v)` holds iff v is one of "very low", "low", "medium", "high", "very high" |
| Priorities.LabelsDistinct | src/entities/types/Priority.tsx:1-7 | exactly five labels, pairwise distinct |
| Priorities.LabelRoundTrip | src/entities/types/Priority.tsx:1-12 | every priority survives label-then-parse, and distinct priorities have distinct labels |
| Priorities.SpelledLabelsOnly | src/entities/types/Priority.tsx:1-7 | "very high" and "very low" are priorities; "very-high", "extreme" and "invalid" are not |
| Errors.DatabaseErrorsAreTheThreeKinds | src/services/database/errors.ts:1-28 | exactly the three subclasses are `DatabaseError`s, and their `message` is the error's message |
| Errors.DefaultStatus | src/services/database/errors.ts:1-10 | the base constructor keeps message and a given status, and defaults the status to 500 |
| Errors.CodeDiscriminates | src/services/database/errors.ts:12-28 | two `DatabaseError`s with the same code are of the same kind |
| Errors.StatusClassifies | src/services/database/errors.ts:12-28 | status 404 iff not found, 400 iff validation, 500 iff data integrity |
| Errors.NotFoundMessageInjective | src/services/database/errors.ts:12-16 | the message "`resource` not found" determines the resource |
| Errors.MessageKept | src/services/database/errors.ts:18-28 | validation and integrity errors keep their message unchanged: equal fields mean equal errors |
| Text.TrimStart | src/services/database/DatabaseValidator.ts:18 | the result is a suffix, the dropped prefix is blank, and the result starts with a kept character |
| Text.TrimEnd | src/services/database/DatabaseValidator.ts:18 | the result is a prefix, the dropped suffix is blank, and the result ends with a kept character |
| Text.Trim | src/services/database/DatabaseValidator.ts:18 | `trim` never lengthens and leaves kept characters at both ends |
| Text.TrimIsSlice | src/services/database/DatabaseValidator.ts:18 | `trim` returns the slice between a blank prefix and a blank suffix |
| Text.TrimEmptyIffBlank | src/services/database/DatabaseValidator.ts:18-20 | a string trims to nothing exactly when every character is whitespace |
| Text.TrimStartSkipsBlank | src/services/database/DatabaseValidator.ts:18 | a blank prefix is stripped up to the first kept character |
| Text.TrimEndSkipsBlank | src/services/database/DatabaseValidator.ts:18 | a blank suffix is stripped back to the last kept character |
| Text.TrimStripsBlankEnds | src/services/database/DatabaseValidator.ts:18 | trimming blank ends around a core that starts and ends kept returns the core |
| Text.TrimIdempotent | src/services/database/DatabaseValidator.ts:18 | trimming twice is trimming once |
| Text.Utf16Length | src/services/database/DatabaseValidator.ts:20-30 | `length` counts between one and two code units per character and is 0 only for "" |
| Text.NatToString | src/services/database/DatabaseValidator.ts:21-29 | a number renders as decimal digits without leading zeros that denote it |
| Text.IntToString | src/services/database/DatabaseValidator.ts:21-29 | an interpolated integer renders as its digits, with a leading `-` exactly when it is negative, and reads back as itself |
| Text.IntToStringInjective | src/services/database/DatabaseValidator.ts:21-29 | distinct integers render as distinct strings |
| Text.SpliceCancels | src/services/database/DatabaseValidator.ts:111-120 | a message template's interpolated part is recovered from the message |
| Validator.ValidateString | src/services/database/DatabaseValidator.ts:8-38 | succeeds iff the trimmed text's length is within bounds and it has no control character, then returns the trimmed text; otherwise a validation error |
| Validator.ValidatedStringIsFixedPoint | src/services/database/DatabaseValidator.ts:18-37 | validating an accepted result again with the same bounds returns it unchanged |
| Validator.SurroundingWhitespaceIgnored | src/services/database/DatabaseValidator.ts:18-37 | whitespace around the text, tabs and newlines included, is stripped and not rejected |
| Validator.SameTrimSameVerdict | src/services/database/DatabaseValidator.ts:18-37 | two inputs with the same trimmed text get the same verdict |
| Validator.EmptyNameTooShort | src/services/database/DatabaseValidator.ts:20-24 | "" for a name reports "name must be at least 1 characters" |
| Validator.LongNameTooLong | src/services/database/DatabaseValidator.ts:20-30 | 256 characters pass the minimum and report "name must not exceed 255 characters" |
| Validator.InteriorNulRejected | src/services/database/DatabaseValidator.ts:32-35 | "John\u0000Doe" is rejected as containing invalid characters |
| Validator.ValidatePriority | src/services/database/DatabaseValidator.ts:40-48 | succeeds iff `isPriority`, returning the same label; otherwise an error starting "Invalid priority" |
| Validator.ValidateSatisfaction | src/services/database/DatabaseValidator.ts:50-66 | accepts exactly the integers 1..10; fractions, non-finite numbers and out-of-range integers are validation errors |
| Validator.ValidateDate | src/services/database/DatabaseValidator.ts:75-99 | accepts exactly a valid date, not later than now unless the future is allowed, with its year in 1900..2100 |
| Validator.ValidateArray | src/services/database/DatabaseValidator.ts:101-122 | accepts iff the length is within the inclusive bounds |
| Validator.ArrayErrorNamesBound | src/services/database/DatabaseValidator.ts:111-120 | two arrays rejected as too short for different minimums, or as too long for different maximums, get different errors |
| Validator.ElementsBound | src/services/database/DatabaseValidator.ts:141-143 | a `Set` of a list is never larger than the list |
| Validator.SetSizeDetectsDuplicates | src/services/database/DatabaseValidator.ts:141-145 | the set of a list is as large as the list exactly when no element repeats |
| Validator.FirstEmptyFrom | src/services/database/DatabaseValidator.ts:132-139 | finds the first empty element from a position on, or reports that there is none |
| Validator.TrimAll | src/services/database/DatabaseValidator.ts:132-139 | element i of the result is the trimmed element i |
| Validator.ValidateStringArray | src/services/database/DatabaseValidator.ts:124-148 | succeeds iff the length is in bounds, no element is blank and the trimmed elements are distinct; the result has the input's length, element i is the non-empty trimmed input i, all distinct |
| Validator.BlankElementReported | src/services/database/DatabaseValidator.ts:132-137 | the first blank element is reported as "`field`[i] must be a non-empty string" |
| Validator.RepeatReportedAsDuplicate | src/services/database/DatabaseValidator.ts:141-145 | a repeat after trimming is reported as "`field` contains duplicate values" |
| PillarEntity.SetterGuardNeverHolds | src/entities/Relationship/Pillar.tsx:77-82 | the satisfaction setter's guard holds for no value |
| PillarEntity.SetterAdmitsZero | src/entities/Relationship/Pillar.tsx:77-82 | 0 is outside the constructor's range, yet the setter's guard lets it through |
| PillarEntity.Pillar.Init | src/entities/Relationship/Pillar.tsx:9-23 | the constructed pillar holds exactly the arguments |
| PillarEntity.Pillar.Create | src/entities/Relationship/Pillar.tsx:9-55 | throws exactly when satisfaction is outside [1,10]; otherwise the getters return the arguments and the range invariant holds |
| PillarEntity.Pillar.SetName | src/entities/Relationship/Pillar.tsx:61-63 | changes the name and nothing else |
| PillarEntity.Pillar.SetPriority | src/entities/Relationship/Pillar.tsx:69-71 | changes the priority and nothing else |
| PillarEntity.Pillar.SetSatisfaction | src/entities/Relationship/Pillar.tsx:77-82 | as written: never throws, stores any value, and keeps the range invariant only for a value in [1,10] |
| PillarEntity.Pillar.SetSatisfactionChecked | src/entities/Relationship/Pillar.tsx:77-82 | corrected: rejects exactly the values outside [1,10], leaving the pillar unchanged, so the invariant is kept |
| Tables.KeysCons | src/services/database/DatabaseService.ts:135-140 | the keys of a table are its first key and the keys of the rest |
| Tables.Lookup | src/services/database/DatabaseService.ts:135-140 | `SELECT ... WHERE id = ?` finds a row exactly when the key is present, and the row found is in the table |
| Tables.Count | src/services/database/DatabaseService.ts:196-203 | the affected-row count is positive iff the key is present, and at most 1 under a primary key |
| Tables.Remove | src/services/database/DatabaseService.ts:215 | `DELETE ... WHERE id = ?` removes exactly that key and keeps keys unique |
| Tables.RemoveRows | src/services/database/DatabaseService.ts:215 | a delete keeps exactly the rows with another key |
| Tables.Replace | src/services/database/DatabaseService.ts:196-199 | `UPDATE ... WHERE id = ?` rewrites exactly the rows with that key, keeping the keys |
| Tables.ValuesOf | src/services/database/DatabaseService.ts:726-729 | reading back a key's association rows yields nothing for an absent key |
| Tables.Rows | src/services/database/DatabaseService.ts:691-696 | the insertion loop writes one row per value, all under the one key |
| Tables.LookupAppend | src/services/database/DatabaseService.ts:124-127 | after an insert under a fresh key that key is found, every other lookup unchanged |
| Tables.LookupRemove | src/services/database/DatabaseService.ts:215 | after a delete the key is not found, every other lookup unchanged |
| Tables.LookupReplace | src/services/database/DatabaseService.ts:196-199 | after an update the key reads the new value, every other lookup unchanged |
| Tables.ValuesOfAppend | src/services/database/DatabaseService.ts:691-711 | reading back a key's rows distributes over appended rows |
| Tables.ValuesOfRows | src/services/database/DatabaseService.ts:691-696 | rows inserted under a key read back as exactly the inserted values, and as nothing under other keys |
| Tables.ValuesOfRemove | src/services/database/DatabaseService.ts:822-827 | deleting a key's rows leaves nothing under it and other keys untouched |
| Tables.KeysConcat | src/services/database/DatabaseService.ts:685-711 | the keys of appended rows are the union of the keys |
| Tables.UniqueAppend | src/services/database/DatabaseService.ts:124-127 | inserting under a fresh key keeps the primary key |
| Tables.LookupUnique | src/services/database/DatabaseService.ts:135-140 | under a primary key, looking up a row's key finds that row |
| Store.Take | src/services/database/DatabaseService.ts:149-151 | `LIMIT n` returns the first min(n, rows) rows |
| Store.OwnedBy | src/services/database/DatabaseService.ts:269-281 | a person's necessities are no more than the rows, and none when no row names the person |
| Store.OwnedByConcat | src/services/database/DatabaseService.ts:269-281 | one owner's necessities distribute over appended rows |
| Store.OwnedBySnoc | src/services/database/DatabaseService.ts:171-178 | appending one row extends only its owner's list, at the end |
| Store.OwnedByAny | src/services/database/DatabaseService.ts:159-167 | `WHERE person_id IN (...)` keeps only rows owned by one of the ids |
| Store.OwnedByAnyKeepsOwner | src/services/database/DatabaseService.ts:159-183 | narrowing to the listed owners loses no necessity of a listed owner |
| Store.DropOwnedBy | src/services/database/DatabaseService.ts:215 | the cascade keeps only rows of other owners, with their keys |
| Store.OwnedByDrop | src/services/database/DatabaseService.ts:215 | the cascade leaves every other owner's necessities as they were |
| Store.LookupDrop | src/services/database/DatabaseService.ts:215 | after the cascade a necessity is found iff it was found before and belonged to someone else |
| Store.Tagged | src/services/database/DatabaseService.ts:370-385 | listing one tag returns no more rows than the table holds |
| Store.TaggedCount | src/services/database/DatabaseService.ts:406-413 | under the primary key, `WHERE id = ? AND type = ?` affects one row exactly when the id is found with that type, and none otherwise |
| Store.TaggedAgreesWithLookup | src/services/database/DatabaseService.ts:354-385 | every commitment listed for a tag is what `getTodo`/`getToKeep` finds for its id |
| Store.ResolvePillars | src/services/database/DatabaseService.ts:672-680 | succeeds iff every id has a pillar row, yielding the pillars in id order; otherwise names a missing id, every earlier id being present |
| Store.OfKind | src/services/database/DatabaseService.ts:744-752 | one kind's items are no more than the item rows |
| Store.WithKind | src/services/database/DatabaseService.ts:698-711 | one item row per content |
| Store.OfKindAppend | src/services/database/DatabaseService.ts:744-752 | one kind's items distribute over appended item rows |
| Store.OfKindWithKind | src/services/database/DatabaseService.ts:698-711 | contents written under one kind read back under it and not under the other |
| Store.ItemsReadBack | src/services/database/DatabaseService.ts:698-711 | improvements and praises written together read back separately, each in its order |
| Store.UpLoveView | src/services/database/DatabaseService.ts:716-761 | `getUpLove` finds an UpLove iff its row exists, and fails only with the integrity error |
| Store.Collect | src/services/database/DatabaseService.ts:770-779 | succeeds iff every read found its UpLove, giving them in order; otherwise the integrity error |
| Store.UpLovesFrom | src/services/database/DatabaseService.ts:763-780 | reads every listed UpLove through `getUpLove`; succeeds iff each read does |
| Store.EmptyTable | src/utils/clearDatabase.ts:22-43 | emptying one table empties exactly it |
| Store.DeleteAll | src/utils/clearDatabase.ts:22-43 | `DELETE FROM n` empties exactly n and the tables its delete cascades to |
| Store.DeleteAllKeepsIntact | src/utils/clearDatabase.ts:19-44 | every whole-table delete keeps the schema's constraints |
| Store.CascadeIdleOnceChildrenEmpty | src/utils/clearDatabase.ts:20-43 | once the tables a delete cascades to are empty, it empties its own table only |
| Store.ClearOrderChildrenFirst | src/utils/clearDatabase.ts:20-43 | every table is deleted after each table its delete cascades to, and every table is deleted |
| Store.AllEmptyIsCleared | src/utils/clearDatabase.ts:5-7 | once every table is empty, the database is the cleared one |
| Laws.AddPerson | src/services/database/DatabaseService.ts:119-130 | the new person reads back with no necessities; every other person as before; integrity kept |
| Laws.RenamePerson | src/services/database/DatabaseService.ts:186-204 | the person reads back renamed with the same necessities; others as before |
| Laws.RemovePerson | src/services/database/DatabaseService.ts:206-220 | the person and its necessities are gone; every other person and necessity reads as before |
| Laws.AddNecessity | src/services/database/DatabaseService.ts:226-254 | the necessity reads back and its owner's list gains it at the end; everything else as before |
| Laws.EditNecessity | src/services/database/DatabaseService.ts:283-311 | the necessity reads back edited with the same owner; others as before |
| Laws.RemoveNecessity | src/services/database/DatabaseService.ts:313-329 | the necessity is gone; others as before |
| Laws.AddCommitment | src/services/database/DatabaseService.ts:335-352 | the commitment reads back under its own tag and not under the other |
| Laws.EditCommitment | src/services/database/DatabaseService.ts:387-415 | the commitment reads back edited under its tag; others as before |
| Laws.RemoveCommitment | src/services/database/DatabaseService.ts:417-434 | the id is found under no tag; others as before |
| Laws.AddPillar | src/services/database/DatabaseService.ts:545-563 | the pillar reads back as written; others as before |
| Laws.ResolveSameLookups | src/services/database/DatabaseService.ts:731-742 | resolving an UpLove's pillar ids depends only on the rows those ids find |
| Laws.EditPillar | src/services/database/DatabaseService.ts:602-627 | the pillar reads back edited and others as before; every UpLove shows the edited pillar wherever it names it, and an UpLove not naming it reads as before |
| Laws.EditPillarRereads | src/services/database/DatabaseService.ts:731-742 | after a pillar edit, one UpLove's read is its old read with every entry for that pillar replaced by the edited pillar |
| Laws.RemovePillar | src/services/database/DatabaseService.ts:629-643 | the pillar is gone, others as before; every UpLove still naming it becomes unreadable with the integrity error, and every UpLove not naming it reads as before |
| Laws.ReadsBackAs | src/services/database/DatabaseService.ts:716-761 | an UpLove whose rows are exactly the given ones reads back with those pillars and items |
| Laws.SameRowsSameView | src/services/database/DatabaseService.ts:716-761 | an UpLove reads the same from two states agreeing on its rows and the pillars |
| Laws.AddUpLoveKeepsIntact | src/services/database/DatabaseService.ts:685-711 | the `createUpLove` transaction keeps integrity |
| Laws.AddUpLove | src/services/database/DatabaseService.ts:649-714 | the new UpLove reads back as written; every other one as before |
| Laws.ReplaceLinksKeepsIntact | src/services/database/DatabaseService.ts:820-851 | the `updateUpLove` transaction keeps integrity |
| Laws.ReplaceLinks | src/services/database/DatabaseService.ts:782-852 | the UpLove keeps its date and reads back with the new pillars and items; others as before |
| Laws.RemoveUpLove | src/services/database/DatabaseService.ts:854-870 | the UpLove is gone; others as before |
| Service.DatabaseService.constructor | src/services/database/DatabaseService.ts:19-21 | a service over an existing database file starts without a handle |
| Service.DatabaseService.Initialize | src/services/database/DatabaseService.ts:23-46 | the handle is held afterwards even when it fails; fails exactly when the foreign-key flag does not read back as 1 |
| Service.DatabaseService.Close | src/services/database/DatabaseService.ts:48-53 | no handle afterwards, so later calls fail as not initialized |
| Service.DatabaseService.InitializeRelationshipMetadata | src/services/database/DatabaseService.ts:70-78 | without a handle fails; an invalid name is rejected unchanged; otherwise the single row holds the trimmed name |
| Service.DatabaseService.GetRelationshipMetadata | src/services/database/DatabaseService.ts:80-93 | fails iff there is no handle; null exactly when the row is absent |
| Service.DatabaseService.UpdateRelationshipMetadata | src/services/database/DatabaseService.ts:95-113 | as the upsert, but an absent row is `NotFound("RelationshipMetadata")` and nothing changes |
| Service.DatabaseService.CreatePerson | src/services/database/DatabaseService.ts:119-130 | handle, then validation; the new person reads back with no necessities, every other person as before, nothing written on failure |
| Service.DatabaseService.GetPerson | src/services/database/DatabaseService.ts:132-144 | fails iff no handle; finds a person iff its row exists, with its id and stored name |
| Service.DatabaseService.GetAllPersons | src/services/database/DatabaseService.ts:146-184 | at most 10 persons, [] when there are none, person i being what `getPerson` returns for the i-th row, with exactly its necessities in row order |
| Service.DatabaseService.GroupByOwner | src/services/database/DatabaseService.ts:170-178 | the grouping loop gives each owner exactly its necessities in row order and no entry to a person without any |
| Service.DatabaseService.UpdatePerson | src/services/database/DatabaseService.ts:186-204 | validation, then `NotFound("Person")`; on success the person reads back renamed; others as before |
| Service.DatabaseService.DeletePerson | src/services/database/DatabaseService.ts:206-220 | `NotFound("Person")` for an unknown id; on success the person and its necessities are gone and nothing else changes |
| Service.DatabaseService.GetNecessity | src/services/database/DatabaseService.ts:256-267 | fails iff no handle; finds a necessity iff its row exists |
| Service.DatabaseService.GetNecessitiesByPerson | src/services/database/DatabaseService.ts:269-281 | [] for an unknown person; for a known one, exactly the necessities `getPerson` carries |
| Service.DatabaseService.CreateNecessity | src/services/database/DatabaseService.ts:226-254 | validation of name then description, then `NotFound("Person")` with nothing inserted; on success the owner's list gains it at the end |
| Service.DatabaseService.UpdateNecessity | src/services/database/DatabaseService.ts:283-311 | validation, then `NotFound("Necessity")`; on success it reads back edited; others as before |
| Service.DatabaseService.DeleteNecessity | src/services/database/DatabaseService.ts:313-329 | `NotFound("Necessity")` for an unknown id; on success it is gone; others as before |
| Service.DatabaseService.CreateCommitment | src/services/database/DatabaseService.ts:335-352 | validation; the commitment reads back under its tag only, `isDone` surviving the 1/0 encoding |
| Service.DatabaseService.GetCommitment | src/services/database/DatabaseService.ts:354-368 | finds a commitment iff its row exists and carries the requested tag |
| Service.DatabaseService.GetAllCommitments | src/services/database/DatabaseService.ts:370-385 | at most 1000 commitments, each what the lookup by its id and tag finds |
| Service.DatabaseService.UpdateCommitment | src/services/database/DatabaseService.ts:387-415 | validation, then `NotFound("Todo")`/`NotFound("ToKeep")` when no row of that tag exists; on success it reads back edited |
| Service.DatabaseService.DeleteCommitment | src/services/database/DatabaseService.ts:417-434 | not found for a row of the other tag; on success the id is found under no tag; others as before |
| Service.DatabaseService.CreatePillar | src/services/database/DatabaseService.ts:545-563 | name, priority, satisfaction validated in that order; the pillar reads back as written |
| Service.DatabaseService.GetPillar | src/services/database/DatabaseService.ts:565-584 | finds a pillar iff its row exists |
| Service.DatabaseService.GetAllPillars | src/services/database/DatabaseService.ts:586-600 | the first min(1000, rows) pillars, each what `getPillar` finds for its row |
| Service.DatabaseService.UpdatePillar | src/services/database/DatabaseService.ts:602-627 | validation, then `NotFound("Pillar")`; on success the table is the old one with that row rewritten in place, the pillar reads back edited, and every UpLove shows the edited pillar wherever it names it; UpLoves not naming it read as before |
| Service.DatabaseService.DeletePillar | src/services/database/DatabaseService.ts:629-643 | `NotFound("Pillar")` for an unknown id; on success the table is the old one without that row, every UpLove naming it reads as an integrity error, and every UpLove not naming it reads as before |
| Service.DatabaseService.GetUpLove | src/services/database/DatabaseService.ts:716-761 | finds an UpLove iff its row exists; a dangling pillar reference is the integrity error, not not-found |
| Service.DatabaseService.GetAllUpLoves | src/services/database/DatabaseService.ts:763-780 | the first min(1000, rows) UpLoves, each as `getUpLove` reads it; fails iff one of them cannot be read |
| Service.DatabaseService.LinkRows | src/services/database/DatabaseService.ts:691-696 | the loop writes one association row per pillar id, in order |
| Service.DatabaseService.ItemRowsOf | src/services/database/DatabaseService.ts:698-711 | the two loops write the improvements, then the praises, each in order |
| Service.DatabaseService.CreateUpLove | src/services/database/DatabaseService.ts:649-714 | validation, then a missing pillar is `NotFound("Pillar with id X")` with no row added; on success the UpLove reads back as returned |
| Service.DatabaseService.UpdateUpLove | src/services/database/DatabaseService.ts:782-852 | validation, then not found or unreadable, then a missing pillar; on success it reads back with the new contents, its date untouched |
| Service.DatabaseService.DeleteUpLove | src/services/database/DatabaseService.ts:854-870 | an unreadable or unknown UpLove fails with nothing deleted; on success it and its rows are gone |
| Service.DatabaseService.ClearAllData | src/utils/clearDatabase.ts:9-52 | without a handle throws "Database not initialized" and changes nothing; otherwise every table is empty and it returns true |
| Service.DatabaseService.InsertPersonRow | src/services/database/DatabaseService.ts:124-127 | the insert appends the row; the person reads back; others as before |
| Service.DatabaseService.UpdatePersonRow | src/services/database/DatabaseService.ts:196-199 | the update renames the person in place |
| Service.DatabaseService.DeletePersonRow | src/services/database/DatabaseService.ts:215 | the delete removes the person and cascades to its necessities |
| Service.DatabaseService.InsertNecessityRow | src/services/database/DatabaseService.ts:248-251 | the insert appends the row; it reads back and joins its owner's list |
| Service.DatabaseService.UpdateNecessityRow | src/services/database/DatabaseService.ts:303-306 | the update rewrites the necessity in place |
| Service.DatabaseService.DeleteNecessityRow | src/services/database/DatabaseService.ts:322-324 | the delete removes the necessity |
| Service.DatabaseService.InsertCommitmentRow | src/services/database/DatabaseService.ts:346-349 | the insert appends the row; it reads back under its tag only |
| Service.DatabaseService.UpdateCommitmentRow | src/services/database/DatabaseService.ts:407-410 | the update rewrites the commitment in place |
| Service.DatabaseService.DeleteCommitmentRow | src/services/database/DatabaseService.ts:426-429 | on a row found with the requested type, `WHERE id = ? AND type = ?` deletes that row, so the id is found under no type afterwards |
| Service.DatabaseService.InsertPillarRow | src/services/database/DatabaseService.ts:557-560 | the insert appends the row; it reads back |
| Service.DatabaseService.UpdatePillarRow | src/services/database/DatabaseService.ts:619-622 | the update rewrites the pillar in place; UpLoves naming it show the edited pillar, the others read as before |
| Service.DatabaseService.DeletePillarRow | src/services/database/DatabaseService.ts:638 | the delete removes the pillar and leaves its associations dangling; UpLoves not naming it read as before |
| Service.DatabaseService.InsertUpLoveRows | src/services/database/DatabaseService.ts:685-711 | the transaction's rows are appended at once; the UpLove reads back as written |
| Service.DatabaseService.ReplaceUpLoveRows | src/services/database/DatabaseService.ts:820-851 | the old associations and items are replaced at once; the UpLove reads back with the new ones |
| Service.DatabaseService.DeleteUpLoveRows | src/services/database/DatabaseService.ts:863-865 | the delete removes the UpLove and cascades to its rows |
| Service.DatabaseService.DeleteFrom | src/utils/clearDatabase.ts:22-43 | `DELETE FROM n` leaves the store as `DeleteAll` says, keeping its constraints |
| Service.DatabaseService.DeleteAllRows | src/utils/clearDatabase.ts:19-44 | the eight deletes in order leave every table empty |

## Left out

- SQLite itself: SQL text, `openDatabaseAsync`/`closeAsync`, the PRAGMAs (`journal_mode = WAL`, `synchronous = FULL`) and schema creation. The store is in memory and a transaction commits by assigning its new rows at once.
- The schema module loaded by `DatabaseService.ts` is not part of this model. Cascades on person and UpLove delete, no action on `up_love_pillars.pillar_id`, and acceptance of repeated pillar ids are assumptions, stated above.
- Store.DeleteAll: follows the assumed foreign-key actions (cascade from persons and UpLoves, no foreign key on `pillar_id`). Under any other declared action a delete could fail, which `clearAllData`'s children-first order avoids; a failing statement and its rollback are not modelled.
- Row order: a `SELECT` without `ORDER BY` (the `LIMIT 10` of `getAllPersons`, `getNecessitiesByPerson`, the pillar and item reads of `getUpLove`, the `LIMIT 1000` listings) is taken to return rows in insertion order. SQL does not promise this, and the row-order contracts of `GetAllPersons`, `GetNecessitiesByPerson`, `CreateUpLove` and `ReadsBackAs` rest on it.
- UUID generation (`generateId`) is a foreign call: each create takes the fresh id as a parameter and requires it to be unused.
- The clock: "now" in `validateDate` is a parameter, and `createUpLove` never consults it because the future is allowed. `getFullYear` and its time zone are folded into the date's year field.
- Dates are stored as milliseconds and `created_at` as seconds; `RelationshipMetadata.createdAt` is not modelled.
- Floating point: a number is an integer, a fraction or non-finite. NaN ordering and float-to-integer conversions are not modelled.
- `validateBoolean` and the runtime type tests (`typeof`, `Array.isArray`, `instanceof Date`) are vacuous under Dafny's static types.
- `length` counts UTF-16 code units from code points. Lone surrogates cannot occur in a Dafny string.
- Console logging.
- The concurrent lookups under `Promise.all` run sequentially in the model. When several pillar ids are missing, the model reports the first in list order.
- The engine's affected-row count is computed from the in-memory table, so the `DataIntegrityError("Update operation failed")` and `("Delete operation failed")` branches are modelled but can never be taken.
- A transaction that fails half-way never arises in the model, since each transaction's checks run before any write. Rollback is therefore not modelled.
- Todo and ToKeep operations are one set of methods parameterised by the tag, since the source's two copies differ only in the tag and the resource name.
- Every service operation checks the handle before it validates its input, as each method of `DatabaseService.ts` does.
- `validateDate` checks "cannot be in the future" before the year bounds, as the code does.
- Service.DatabaseService.GetAllCommitments: states the 1000-row bound and that each listed commitment is the one its lookup finds, not that the list is exactly the first 1000 rows of that tag in row order.
- The UI, the react-query hooks, the seeding script and the stale top-level `entities/` directory are not part of this model.

## Findings

| source | as written | input that shows it | evidently intended | confidence | as-written member | corrected member |
|---|---|---|---|---|---|---|
| src/entities/Relationship/Pillar.tsx:77-82 | the satisfaction setter throws when `value <= 0 && value >= 10`, which no number satisfies | `pillar.satisfaction = 0` is stored without an error, breaking the [1,10] range the constructor enforces | throw when the value is below 1 or above 10, as the constructor and the message say | high; not executed | PillarEntity.SetterAdmitsZero | PillarEntity.Pillar.SetSatisfactionChecked |
