/**
 * `DatabaseService` (src/services/database/DatabaseService.ts) over an in-memory
 * store, and `clearAllData` (src/utils/clearDatabase.ts) as one more method of it.
 * Each table of the database file is a field holding its rows in insertion order;
 * `open` stands for the storage handle. Every operation first requires the handle,
 * then validates its input, then checks that what it refers to exists, and only
 * then writes.
 */
module Service {
  import opened Wrappers
  import opened Errors
  import opened Text
  import opened Priorities
  import opened Entities
  import opened Validator
  import opened Tables
  import opened Store
  import opened Laws

  const NotInitializedMessage := "Database not initialized. Call initialize() first."
  const ForeignKeysMessage := "Foreign key constraints could not be enabled"
  const UpdateFailedMessage := "Update operation failed"
  const DeleteFailedMessage := "Delete operation failed"
  /** The message `clearAllData` throws itself when there is no handle. */
  const NoHandleMessage := "Database not initialized"

  /** What `ensureInitialized` throws. */
  const NotInitializedError := NotInitialized(NotInitializedMessage)

  /** The error `createUpLove` and `updateUpLove` raise for a pillar id that has no row. */
  function MissingPillar(id: Id): DbError {
    NotFound("Pillar with id " + id)
  }

  class DatabaseService {
    /** Whether the service holds a storage handle. */
    var open: bool
    var metadata: Option<string>
    var persons: Table<Id, string>
    var necessities: Table<Id, NecessityRow>
    var commitments: Table<Id, CommitmentRow>
    var pillars: Table<Id, PillarRow>
    var upLoves: Table<Id, Date>
    var upLovePillars: Table<Id, Id>
    var upLoveItems: Table<Id, (ItemKind, string)>

    /** The contents of the database file. */
    function Contents(): DbContents
      reads this
    {
      DbContents(metadata, persons, necessities, commitments, pillars, upLoves, upLovePillars, upLoveItems)
    }

    /** The schema's constraints hold on the stored rows. */
    ghost predicate Valid()
      reads this
    {
      Intact(Contents())
    }

    /** A service over an existing database file, before `initialize`. */
    constructor(stored: DbContents)
      requires Intact(stored)
      ensures Valid() && !open && Contents() == stored
    {
      open := false;
      metadata, persons, necessities, commitments := stored.metadata, stored.persons, stored.necessities, stored.commitments;
      pillars, upLoves, upLovePillars, upLoveItems := stored.pillars, stored.upLoves, stored.upLovePillars, stored.upLoveItems;
    }

    // -------------------------------------------------------------------------
    // Lifecycle
    // -------------------------------------------------------------------------

    /**
     * `initialize`, given what reading back `PRAGMA foreign_keys` yields (nothing
     * when no row comes back). The handle is held from the start, also when the
     * check then fails.
     */
    method Initialize(foreignKeys: Option<int>) returns (r: Result<(), DbError>)
      modifies this`open
      ensures open
      ensures r.Success? <==> foreignKeys == Some(1)
      ensures r.Failure? ==> r.error == DataIntegrity(ForeignKeysMessage)
    {
      open := true;
      if foreignKeys.None? || foreignKeys.value != 1 {
        return Failure(DataIntegrity(ForeignKeysMessage));
      }
      return Success(());
    }

    /** `close`: releases the handle, if any; the stored rows remain. */
    method Close()
      modifies this`open
      ensures !open
    {
      if open {
        open := false;
      }
    }

    // -------------------------------------------------------------------------
    // Relationship metadata
    // -------------------------------------------------------------------------

    /** `initializeRelationshipMetadata`: an upsert of the single row. */
    method InitializeRelationshipMetadata(name: string) returns (r: Result<(), DbError>)
      requires Valid()
      modifies this`metadata
      ensures Valid()
      ensures !open ==> r == Failure(NotInitializedError)
      ensures open ==> match ValidateString(name, "name", 1, 255)
        case Failure(e) => r == Failure(e)
        case Success(sanitized) => r.Success? && GetRelationshipMetadata() == Success(Some(sanitized))
      ensures r.Failure? ==> metadata == old(metadata)
    {
      if !open {
        return Failure(NotInitializedError);
      }
      var sanitized := ValidateString(name, "name", 1, 255);
      if sanitized.Failure? {
        return Failure(sanitized.error);
      }
      metadata := Some(sanitized.value);
      return Success(());
    }

    /** `getRelationshipMetadata`: the stored name, or nothing when the row is absent. */
    function GetRelationshipMetadata(): (r: Result<Option<string>, DbError>)
      reads this
      ensures r.Failure? <==> !open
      ensures r.Failure? ==> r.error == NotInitializedError
      ensures r.Success? ==> (r.value.Some? <==> metadata.Some?)
    {
      if !open then Failure(NotInitializedError) else Success(metadata)
    }

    /** `updateRelationshipMetadata`: like the upsert, but the row must already exist. */
    method UpdateRelationshipMetadata(name: string) returns (r: Result<(), DbError>)
      requires Valid()
      modifies this`metadata
      ensures Valid()
      ensures !open ==> r == Failure(NotInitializedError)
      ensures open ==> match ValidateString(name, "name", 1, 255)
        case Failure(e) => r == Failure(e)
        case Success(sanitized) =>
          if old(metadata).None? then r == Failure(NotFound("RelationshipMetadata"))
          else r.Success? && GetRelationshipMetadata() == Success(Some(sanitized))
      ensures r.Failure? ==> metadata == old(metadata)
    {
      if !open {
        return Failure(NotInitializedError);
      }
      var sanitized := ValidateString(name, "name", 1, 255);
      if sanitized.Failure? {
        return Failure(sanitized.error);
      }
      var existing := GetRelationshipMetadata();
      if existing.value.None? {
        return Failure(NotFound("RelationshipMetadata"));
      }
      var changes := if metadata.Some? then 1 else 0;
      if changes == 0 {
        return Failure(DataIntegrity(UpdateFailedMessage));
      }
      metadata := Some(sanitized.value);
      return Success(());
    }

    // -------------------------------------------------------------------------
    // Persons
    // -------------------------------------------------------------------------

    /** `createPerson`, with `id` the fresh identifier `generateId` returns. */
    method CreatePerson(name: string, id: Id) returns (r: Result<Person, DbError>)
      requires Valid() && id !in Keys(persons)
      modifies this`persons
      ensures Valid()
      ensures !open ==> r == Failure(NotInitializedError)
      ensures open ==> match ValidateString(name, "name", 1, 255)
        case Failure(e) => r == Failure(e)
        case Success(sanitized) => r == Success(Person(id, sanitized, []))
      ensures r.Success? ==> persons == old(persons) + [(id, r.value.name)]
      ensures r.Success? ==> GetPerson(id) == Success(Some(r.value))
      ensures r.Failure? ==> persons == old(persons)
      ensures forall q :: q != id ==> GetPerson(q) == old(GetPerson(q))
    {
      if !open {
        return Failure(NotInitializedError);
      }
      var sanitized := ValidateString(name, "name", 1, 255);
      if sanitized.Failure? {
        return Failure(sanitized.error);
      }
      InsertPersonRow(id, sanitized.value);
      return Success(Person(id, sanitized.value, []));
    }

    /** `getPerson`: the person with its necessities, or nothing. */
    function GetPerson(id: Id): (r: Result<Option<Person>, DbError>)
      reads this
      ensures r.Failure? <==> !open
      ensures r.Failure? ==> r.error == NotInitializedError
      ensures r.Success? ==> (r.value.Some? <==> id in Keys(persons))
      ensures r.Success? && r.value.Some? ==> r.value.value.id == id && (id, r.value.value.name) in persons
    {
      if !open then Failure(NotInitializedError) else Success(PersonView(Contents(), id))
    }

    /** `updatePerson`: renames an existing person. */
    method UpdatePerson(id: Id, name: string) returns (r: Result<(), DbError>)
      requires Valid()
      modifies this`persons
      ensures Valid()
      ensures !open ==> r == Failure(NotInitializedError)
      ensures open ==> match ValidateString(name, "name", 1, 255)
        case Failure(e) => r == Failure(e)
        case Success(sanitized) =>
          if id !in old(Keys(persons)) then r == Failure(NotFound("Person"))
          else r.Success? && GetPerson(id) == Success(Some(old(GetPerson(id)).value.value.(name := sanitized)))
      ensures r.Failure? ==> persons == old(persons)
      ensures forall q :: q != id ==> GetPerson(q) == old(GetPerson(q))
    {
      if !open {
        return Failure(NotInitializedError);
      }
      var sanitized := ValidateString(name, "name", 1, 255);
      if sanitized.Failure? {
        return Failure(sanitized.error);
      }
      var person := GetPerson(id);
      if person.value.None? {
        return Failure(NotFound("Person"));
      }
      var changes := Count(persons, id);
      if changes == 0 {
        return Failure(DataIntegrity(UpdateFailedMessage));
      }
      UpdatePersonRow(id, sanitized.value);
      return Success(());
    }

    /** `deletePerson`: the person and, with it, every one of its necessities. */
    method DeletePerson(id: Id) returns (r: Result<(), DbError>)
      requires Valid()
      modifies this`persons, this`necessities
      ensures Valid()
      ensures !open ==> r == Failure(NotInitializedError)
      ensures open && id !in old(Keys(persons)) ==> r == Failure(NotFound("Person"))
      ensures r.Success? <==> open && id in old(Keys(persons))
      ensures r.Success? ==> Contents() == WithoutPerson(old(Contents()), id)
      ensures r.Success? ==> GetPerson(id) == Success(None)
      ensures r.Success? ==> forall n :: old(OwnedNecessity(Contents(), n, id)) ==> GetNecessity(n) == Success(None)
      ensures r.Failure? ==> persons == old(persons) && necessities == old(necessities)
      ensures forall q :: q != id ==> GetPerson(q) == old(GetPerson(q))
      ensures forall n :: !old(OwnedNecessity(Contents(), n, id)) ==> GetNecessity(n) == old(GetNecessity(n))
    {
      if !open {
        return Failure(NotInitializedError);
      }
      var person := GetPerson(id);
      if person.value.None? {
        return Failure(NotFound("Person"));
      }
      var changes := Count(persons, id);
      if changes == 0 {
        return Failure(DataIntegrity(DeleteFailedMessage));
      }
      DeletePersonRow(id);
      return Success(());
    }

    // -------------------------------------------------------------------------
    // Necessities
    // -------------------------------------------------------------------------

    /** `getNecessity`. */
    function GetNecessity(id: Id): (r: Result<Option<Necessity>, DbError>)
      reads this
      ensures r.Failure? <==> !open
      ensures r.Failure? ==> r.error == NotInitializedError
      ensures r.Success? ==> (r.value.Some? <==> id in Keys(necessities))
      ensures r.Success? && r.value.Some? ==> r.value.value.id == id
    {
      if !open then Failure(NotInitializedError) else Success(NecessityView(Contents(), id))
    }

    /** `getNecessitiesByPerson`: the person's necessities in row order; none for an unknown person. */
    function GetNecessitiesByPerson(personId: Id): (r: Result<seq<Necessity>, DbError>)
      reads this
      ensures r.Failure? <==> !open
      ensures r.Failure? ==> r.error == NotInitializedError
      ensures r.Success? && Valid() && personId !in Keys(persons) ==> r.value == []
      ensures r.Success? && personId in Keys(persons) ==> GetPerson(personId) == Success(Some(Person(personId, Lookup(persons, personId).value, r.value)))
    {
      if !open then Failure(NotInitializedError) else Success(OwnedBy(necessities, personId))
    }

    /** `createNecessity` for an existing person, with `id` the fresh identifier `generateId` returns. */
    method CreateNecessity(personId: Id, name: string, description: string, id: Id) returns (r: Result<Necessity, DbError>)
      requires Valid() && id !in Keys(necessities)
      modifies this`necessities
      ensures Valid()
      ensures !open ==> r == Failure(NotInitializedError)
      ensures open ==> match (ValidateString(name, "name", 1, 255), ValidateString(description, "description", 1, 1000))
        case (Failure(e), _) => r == Failure(e)
        case (Success(_), Failure(e)) => r == Failure(e)
        case (Success(n), Success(d)) =>
          if personId !in Keys(persons) then r == Failure(NotFound("Person"))
          else r == Success(Necessity(id, n, d))
      ensures r.Success? ==> necessities == old(necessities) + [(id, NecessityRow(personId, r.value.name, r.value.description))]
      ensures r.Success? ==> GetNecessity(id) == Success(Some(r.value))
      ensures r.Success? ==> GetNecessitiesByPerson(personId) == Success(old(GetNecessitiesByPerson(personId)).value + [r.value])
      ensures r.Failure? ==> necessities == old(necessities)
      ensures forall n :: n != id ==> GetNecessity(n) == old(GetNecessity(n))
      ensures forall q :: q != personId ==> GetPerson(q) == old(GetPerson(q))
    {
      if !open {
        return Failure(NotInitializedError);
      }
      var sanitizedName := ValidateString(name, "name", 1, 255);
      if sanitizedName.Failure? {
        return Failure(sanitizedName.error);
      }
      var sanitizedDescription := ValidateString(description, "description", 1, 1000);
      if sanitizedDescription.Failure? {
        return Failure(sanitizedDescription.error);
      }
      var person := GetPerson(personId);
      if person.value.None? {
        return Failure(NotFound("Person"));
      }
      var row := NecessityRow(personId, sanitizedName.value, sanitizedDescription.value);
      InsertNecessityRow(id, row);
      return Success(Necessity(id, sanitizedName.value, sanitizedDescription.value));
    }

    /** `updateNecessity`: new name and description; the owner stays. */
    method UpdateNecessity(id: Id, name: string, description: string) returns (r: Result<(), DbError>)
      requires Valid()
      modifies this`necessities
      ensures Valid()
      ensures !open ==> r == Failure(NotInitializedError)
      ensures open ==> match (ValidateString(name, "name", 1, 255), ValidateString(description, "description", 1, 1000))
        case (Failure(e), _) => r == Failure(e)
        case (Success(_), Failure(e)) => r == Failure(e)
        case (Success(n), Success(d)) =>
          if id !in old(Keys(necessities)) then r == Failure(NotFound("Necessity"))
          else r.Success? && GetNecessity(id) == Success(Some(Necessity(id, n, d)))
      ensures r.Failure? ==> necessities == old(necessities)
      ensures forall n :: n != id ==> GetNecessity(n) == old(GetNecessity(n))
    {
      if !open {
        return Failure(NotInitializedError);
      }
      var sanitizedName := ValidateString(name, "name", 1, 255);
      if sanitizedName.Failure? {
        return Failure(sanitizedName.error);
      }
      var sanitizedDescription := ValidateString(description, "description", 1, 1000);
      if sanitizedDescription.Failure? {
        return Failure(sanitizedDescription.error);
      }
      var necessity := GetNecessity(id);
      if necessity.value.None? {
        return Failure(NotFound("Necessity"));
      }
      var changes := Count(necessities, id);
      if changes == 0 {
        return Failure(DataIntegrity(UpdateFailedMessage));
      }
      var row := NecessityRow(Lookup(necessities, id).value.personId, sanitizedName.value, sanitizedDescription.value);
      UpdateNecessityRow(id, row);
      return Success(());
    }

    /** `deleteNecessity`. */
    method DeleteNecessity(id: Id) returns (r: Result<(), DbError>)
      requires Valid()
      modifies this`necessities
      ensures Valid()
      ensures !open ==> r == Failure(NotInitializedError)
      ensures open && id !in old(Keys(necessities)) ==> r == Failure(NotFound("Necessity"))
      ensures r.Success? <==> open && id in old(Keys(necessities))
      ensures r.Success? ==> GetNecessity(id) == Success(None)
      ensures r.Failure? ==> necessities == old(necessities)
      ensures forall n :: n != id ==> GetNecessity(n) == old(GetNecessity(n))
    {
      if !open {
        return Failure(NotInitializedError);
      }
      var necessity := GetNecessity(id);
      if necessity.value.None? {
        return Failure(NotFound("Necessity"));
      }
      var changes := Count(necessities, id);
      if changes == 0 {
        return Failure(DataIntegrity(DeleteFailedMessage));
      }
      DeleteNecessityRow(id);
      return Success(());
    }

    // -------------------------------------------------------------------------
    // Commitments: the Todo operations with tag Todo, the ToKeep ones with ToKeep
    // -------------------------------------------------------------------------

    /** `createTodo` / `createToKeep`, with `id` the fresh identifier `generateId` returns. */
    method CreateCommitment(tag: Tag, description: string, isDone: bool, id: Id) returns (r: Result<Commitment, DbError>)
      requires Valid() && id !in Keys(commitments)
      modifies this`commitments
      ensures Valid()
      ensures !open ==> r == Failure(NotInitializedError)
      ensures open ==> match ValidateString(description, "description", 1, 1000)
        case Failure(e) => r == Failure(e)
        case Success(d) => r == Success(Commitment(id, d, isDone))
      ensures r.Success? ==> commitments == old(commitments) + [(id, CommitmentRow(tag, r.value.description, if isDone then 1 else 0))]
      ensures r.Success? ==> GetCommitment(id, tag) == Success(Some(r.value))
      ensures r.Success? ==> forall other :: other != tag ==> GetCommitment(id, other) == Success(None)
      ensures r.Failure? ==> commitments == old(commitments)
      ensures forall n, t :: n != id ==> GetCommitment(n, t) == old(GetCommitment(n, t))
    {
      if !open {
        return Failure(NotInitializedError);
      }
      var sanitized := ValidateString(description, "description", 1, 1000);
      if sanitized.Failure? {
        return Failure(sanitized.error);
      }
      var row := CommitmentRow(tag, sanitized.value, if isDone then 1 else 0);
      InsertCommitmentRow(id, row);
      return Success(Commitment(id, sanitized.value, isDone));
    }

    /** `getTodo` / `getToKeep`: a row of the other kind is not found. */
    function GetCommitment(id: Id, tag: Tag): (r: Result<Option<Commitment>, DbError>)
      reads this
      ensures r.Failure? <==> !open
      ensures r.Failure? ==> r.error == NotInitializedError
      ensures r.Success? ==> (r.value.Some? <==> id in Keys(commitments) && Lookup(commitments, id).value.tag == tag)
      ensures r.Success? && r.value.Some? ==> r.value.value.id == id
    {
      if !open then Failure(NotInitializedError) else Success(CommitmentView(Contents(), id, tag))
    }

    /** `getAllTodos` / `getAllToKeeps`: at most 1000 commitments of the tag, each as its lookup finds it. */
    function GetAllCommitments(tag: Tag): (r: Result<seq<Commitment>, DbError>)
      reads this
      ensures r.Failure? <==> !open
      ensures r.Success? ==> |r.value| <= 1000
      ensures r.Success? && UniqueKeys(commitments) ==> forall x :: x in r.value ==> GetCommitment(x.id, tag) == Success(Some(x))
    {
      if !open then Failure(NotInitializedError)
      else
        var listed := Take(Tagged(commitments, tag), 1000);
        assert UniqueKeys(commitments) ==> forall x :: x in listed ==> TaggedLookup(commitments, x.id, tag) == Some(x) by {
          if UniqueKeys(commitments) {
            TaggedAgreesWithLookup(commitments, tag);
          }
        }
        Success(listed)
    }

    /** `updateTodo` / `updateToKeep`: only a row of the same kind is updated. */
    method UpdateCommitment(tag: Tag, id: Id, description: string, isDone: bool) returns (r: Result<(), DbError>)
      requires Valid()
      modifies this`commitments
      ensures Valid()
      ensures !open ==> r == Failure(NotInitializedError)
      ensures open ==> match ValidateString(description, "description", 1, 1000)
        case Failure(e) => r == Failure(e)
        case Success(d) =>
          if old(GetCommitment(id, tag)).value.None? then r == Failure(NotFound(TagResource(tag)))
          else r.Success? && GetCommitment(id, tag) == Success(Some(Commitment(id, d, isDone)))
      ensures r.Failure? ==> commitments == old(commitments)
      ensures forall n, t :: n != id ==> GetCommitment(n, t) == old(GetCommitment(n, t))
    {
      if !open {
        return Failure(NotInitializedError);
      }
      var sanitized := ValidateString(description, "description", 1, 1000);
      if sanitized.Failure? {
        return Failure(sanitized.error);
      }
      var existing := GetCommitment(id, tag);
      if existing.value.None? {
        return Failure(NotFound(TagResource(tag)));
      }
      var changes := TaggedCount(commitments, id, tag);
      if changes == 0 {
        return Failure(DataIntegrity(UpdateFailedMessage));
      }
      var row := CommitmentRow(tag, sanitized.value, if isDone then 1 else 0);
      UpdateCommitmentRow(id, row);
      return Success(());
    }

    /** `deleteTodo` / `deleteToKeep`: only a row of the same kind is deleted. */
    method DeleteCommitment(tag: Tag, id: Id) returns (r: Result<(), DbError>)
      requires Valid()
      modifies this`commitments
      ensures Valid()
      ensures !open ==> r == Failure(NotInitializedError)
      ensures open && old(GetCommitment(id, tag)).value.None? ==> r == Failure(NotFound(TagResource(tag)))
      ensures r.Success? <==> open && old(GetCommitment(id, tag)).value.Some?
      ensures r.Success? ==> forall t :: GetCommitment(id, t) == Success(None)
      ensures r.Failure? ==> commitments == old(commitments)
      ensures forall n, t :: n != id ==> GetCommitment(n, t) == old(GetCommitment(n, t))
    {
      if !open {
        return Failure(NotInitializedError);
      }
      var existing := GetCommitment(id, tag);
      if existing.value.None? {
        return Failure(NotFound(TagResource(tag)));
      }
      var changes := TaggedCount(commitments, id, tag);
      if changes == 0 {
        return Failure(DataIntegrity(DeleteFailedMessage));
      }
      DeleteCommitmentRow(tag, id);
      return Success(());
    }

    // -------------------------------------------------------------------------
    // Pillars
    // -------------------------------------------------------------------------

    /** `createPillar`, with `id` the fresh identifier `generateId` returns. */
    method CreatePillar(name: string, priority: string, satisfaction: Number, id: Id) returns (r: Result<PillarData, DbError>)
      requires Valid() && id !in Keys(pillars)
      modifies this`pillars
      ensures Valid()
      ensures !open ==> r == Failure(NotInitializedError)
      ensures open ==> match (ValidateString(name, "name", 1, 255), ValidatePriority(priority), ValidateSatisfaction(satisfaction))
        case (Failure(e), _, _) => r == Failure(e)
        case (Success(_), Failure(e), _) => r == Failure(e)
        case (Success(_), Success(_), Failure(e)) => r == Failure(e)
        case (Success(n), Success(p), Success(_)) => r == Success(PillarData(id, n, p, satisfaction.n))
      ensures r.Success? ==> pillars == old(pillars) + [(id, PillarRow(r.value.name, r.value.priority, r.value.satisfaction))]
      ensures r.Success? ==> GetPillar(id) == Success(Some(r.value))
      ensures r.Failure? ==> pillars == old(pillars)
      ensures forall n :: n != id ==> GetPillar(n) == old(GetPillar(n))
    {
      if !open {
        return Failure(NotInitializedError);
      }
      var sanitizedName := ValidateString(name, "name", 1, 255);
      if sanitizedName.Failure? {
        return Failure(sanitizedName.error);
      }
      var validatedPriority := ValidatePriority(priority);
      if validatedPriority.Failure? {
        return Failure(validatedPriority.error);
      }
      var checked := ValidateSatisfaction(satisfaction);
      if checked.Failure? {
        return Failure(checked.error);
      }
      var row := PillarRow(sanitizedName.value, validatedPriority.value, satisfaction.n);
      InsertPillarRow(id, row);
      return Success(PillarOf(id, row));
    }

    /** `getPillar`. */
    function GetPillar(id: Id): (r: Result<Option<PillarData>, DbError>)
      reads this
      ensures r.Failure? <==> !open
      ensures r.Failure? ==> r.error == NotInitializedError
      ensures r.Success? ==> (r.value.Some? <==> id in Keys(pillars))
      ensures r.Success? && r.value.Some? ==> r.value.value.id == id
    {
      if !open then Failure(NotInitializedError) else Success(PillarView(Contents(), id))
    }

    /** `getAllPillars`: the first 1000 pillar rows, each as its lookup finds it. */
    function GetAllPillars(): (r: Result<seq<PillarData>, DbError>)
      reads this
      ensures r.Failure? <==> !open
      ensures r.Success? ==> |r.value| == if |pillars| < 1000 then |pillars| else 1000
      ensures r.Success? && UniqueKeys(pillars) ==> forall i :: 0 <= i < |r.value| ==> GetPillar(pillars[i].0) == Success(Some(r.value[i]))
    {
      if !open then Failure(NotInitializedError)
      else
        var rows := Take(pillars, 1000);
        var listed := seq(|rows|, i requires 0 <= i < |rows| => PillarOf(rows[i].0, rows[i].1));
        assert UniqueKeys(pillars) ==> forall i :: 0 <= i < |rows| ==> Lookup(pillars, pillars[i].0) == Some(pillars[i].1) by {
          if UniqueKeys(pillars) {
            forall i | 0 <= i < |rows| ensures Lookup(pillars, pillars[i].0) == Some(pillars[i].1) {
              LookupUnique(pillars, i);
            }
          }
        }
        Success(listed)
    }

    /** `updatePillar`. */
    method UpdatePillar(id: Id, name: string, priority: string, satisfaction: Number) returns (r: Result<(), DbError>)
      requires Valid()
      modifies this`pillars
      ensures Valid()
      ensures !open ==> r == Failure(NotInitializedError)
      ensures open ==> match (ValidateString(name, "name", 1, 255), ValidatePriority(priority), ValidateSatisfaction(satisfaction))
        case (Failure(e), _, _) => r == Failure(e)
        case (Success(_), Failure(e), _) => r == Failure(e)
        case (Success(_), Success(_), Failure(e)) => r == Failure(e)
        case (Success(n), Success(p), Success(_)) =>
          if id !in old(Keys(pillars)) then r == Failure(NotFound("Pillar"))
          else (r.Success? && GetPillar(id) == Success(Some(PillarData(id, n, p, satisfaction.n)))
                && pillars == Replace(old(pillars), id, PillarRow(n, p, satisfaction.n))
                && forall u :: GetUpLove(u) == Repointed(old(GetUpLove(u)), PillarData(id, n, p, satisfaction.n)))
      ensures r.Failure? ==> pillars == old(pillars)
      ensures forall n :: n != id ==> GetPillar(n) == old(GetPillar(n))
      ensures forall u :: id !in ValuesOf(upLovePillars, u) ==> GetUpLove(u) == old(GetUpLove(u))
    {
      if !open {
        return Failure(NotInitializedError);
      }
      var sanitizedName := ValidateString(name, "name", 1, 255);
      if sanitizedName.Failure? {
        return Failure(sanitizedName.error);
      }
      var validatedPriority := ValidatePriority(priority);
      if validatedPriority.Failure? {
        return Failure(validatedPriority.error);
      }
      var checked := ValidateSatisfaction(satisfaction);
      if checked.Failure? {
        return Failure(checked.error);
      }
      var pillar := GetPillar(id);
      if pillar.value.None? {
        return Failure(NotFound("Pillar"));
      }
      var changes := Count(pillars, id);
      if changes == 0 {
        return Failure(DataIntegrity(UpdateFailedMessage));
      }
      var row := PillarRow(sanitizedName.value, validatedPriority.value, satisfaction.n);
      UpdatePillarRow(id, row);
      return Success(());
    }

    /**
     * `deletePillar`. The association rows naming the pillar are left in place, so
     * every UpLove still referring to it can no longer be read.
     */
    method DeletePillar(id: Id) returns (r: Result<(), DbError>)
      requires Valid()
      modifies this`pillars
      ensures Valid()
      ensures !open ==> r == Failure(NotInitializedError)
      ensures open && id !in old(Keys(pillars)) ==> r == Failure(NotFound("Pillar"))
      ensures r.Success? <==> open && id in old(Keys(pillars))
      ensures r.Success? ==> pillars == Remove(old(pillars), id)
      ensures r.Success? ==> GetPillar(id) == Success(None)
      ensures r.Success? ==> forall u :: u in Keys(upLoves) && id in ValuesOf(upLovePillars, u) ==>
        GetUpLove(u) == Failure(DataIntegrity(IntegrityMessage))
      ensures r.Failure? ==> pillars == old(pillars)
      ensures forall n :: n != id ==> GetPillar(n) == old(GetPillar(n))
      ensures forall u :: id !in ValuesOf(upLovePillars, u) ==> GetUpLove(u) == old(GetUpLove(u))
    {
      if !open {
        return Failure(NotInitializedError);
      }
      var pillar := GetPillar(id);
      if pillar.value.None? {
        return Failure(NotFound("Pillar"));
      }
      var changes := Count(pillars, id);
      if changes == 0 {
        return Failure(DataIntegrity(DeleteFailedMessage));
      }
      DeletePillarRow(id);
      return Success(());
    }

    // -------------------------------------------------------------------------
    // UpLoves
    // -------------------------------------------------------------------------

    /** `getUpLove`: nothing for an unknown id; a dangling pillar reference is an integrity error. */
    function GetUpLove(id: Id): (r: Result<Option<UpLove>, DbError>)
      reads this
      ensures !open ==> r == Failure(NotInitializedError)
      ensures open && r.Failure? ==> r.error == DataIntegrity(IntegrityMessage)
      ensures r.Success? ==> (r.value.Some? <==> id in Keys(upLoves))
    {
      if !open then Failure(NotInitializedError) else UpLoveView(Contents(), id)
    }

    /** `getAllUpLoves`: the first 1000 UpLove rows, each through `getUpLove`; one unreadable UpLove fails the whole read. */
    function GetAllUpLoves(): (r: Result<seq<UpLove>, DbError>)
      reads this
      ensures !open ==> r == Failure(NotInitializedError)
      ensures open ==> (r.Success? <==> forall i :: 0 <= i < |upLoves| && i < 1000 ==> GetUpLove(upLoves[i].0).Success?)
      ensures r.Success? ==> |r.value| == if |upLoves| < 1000 then |upLoves| else 1000
      ensures r.Success? ==> forall i :: 0 <= i < |r.value| ==> GetUpLove(upLoves[i].0) == Success(Some(r.value[i]))
      ensures open && r.Failure? ==> r.error == DataIntegrity(IntegrityMessage)
    {
      if !open then Failure(NotInitializedError)
      else
        var rows := Take(upLoves, 1000);
        assert forall i :: 0 <= i < |rows| ==> rows[i] == upLoves[i];
        UpLovesFrom(Contents(), rows)
    }

    /** The association rows the insertion loop writes: one per pillar id, in order. */
    static method LinkRows(id: Id, pillarIds: seq<Id>) returns (links: Table<Id, Id>)
      ensures links == Rows(id, pillarIds)
    {
      links := [];
      for k := 0 to |pillarIds|
        invariant links == Rows(id, pillarIds[..k])
      {
        assert Rows(id, pillarIds[..k + 1]) == Rows(id, pillarIds[..k]) + [(id, pillarIds[k])];
        links := links + [(id, pillarIds[k])];
      }
      assert pillarIds[..|pillarIds|] == pillarIds;
    }

    /** The item rows the two insertion loops write: the improvements, then the praises, each in order. */
    static method ItemRowsOf(id: Id, toImprove: seq<string>, toPraise: seq<string>) returns (items: Table<Id, (ItemKind, string)>)
      ensures items == ItemRows(id, toImprove, toPraise)
    {
      items := [];
      for k := 0 to |toImprove|
        invariant items == Rows(id, WithKind(ToImprove, toImprove[..k]))
      {
        assert Rows(id, WithKind(ToImprove, toImprove[..k + 1])) == Rows(id, WithKind(ToImprove, toImprove[..k])) + [(id, (ToImprove, toImprove[k]))];
        items := items + [(id, (ToImprove, toImprove[k]))];
      }
      assert toImprove[..|toImprove|] == toImprove;
      for k := 0 to |toPraise|
        invariant items == Rows(id, WithKind(ToImprove, toImprove) + WithKind(ToPraise, toPraise[..k]))
      {
        assert Rows(id, WithKind(ToImprove, toImprove) + WithKind(ToPraise, toPraise[..k + 1])) ==
          Rows(id, WithKind(ToImprove, toImprove) + WithKind(ToPraise, toPraise[..k])) + [(id, (ToPraise, toPraise[k]))];
        items := items + [(id, (ToPraise, toPraise[k]))];
      }
      assert toPraise[..|toPraise|] == toPraise;
    }

    /**
     * `createUpLove`, with `id` the fresh identifier `generateId` returns. The pillar
     * ids are resolved before the transaction; the transaction's rows are built and
     * then committed at once.
     */
    method CreateUpLove(date: Date, pillarIds: seq<Id>, toImprove: seq<string>, toPraise: seq<string>, id: Id) returns (r: Result<UpLove, DbError>)
      requires Valid() && id !in Keys(upLoves)
      modifies this`upLoves, this`upLovePillars, this`upLoveItems
      ensures Valid()
      ensures !open ==> r == Failure(NotInitializedError)
      ensures open ==> match (ValidateDate(date, "date", true, 0), ValidateArray(pillarIds, "pillarIds", 0, 10),
                              ValidateStringArray(toImprove, "toImprove", 0, 50), ValidateStringArray(toPraise, "toPraise", 0, 50))
        case (Failure(e), _, _, _) => r == Failure(e)
        case (Success(_), Failure(e), _, _) => r == Failure(e)
        case (Success(_), Success(_), Failure(e), _) => r == Failure(e)
        case (Success(_), Success(_), Success(_), Failure(e)) => r == Failure(e)
        case (Success(_), Success(_), Success(improve), Success(praise)) =>
          match ResolvePillars(pillars, pillarIds)
          case Failure(missing) => r == Failure(MissingPillar(missing))
          case Success(resolved) => r == Success(UpLove(id, date, resolved, improve, praise))
      ensures r.Success? ==> Contents() == WithUpLove(old(Contents()), id, date, pillarIds, r.value.toImprove, r.value.toPraise)
      ensures r.Success? ==> GetUpLove(id) == Success(Some(r.value))
      ensures r.Failure? ==> upLoves == old(upLoves) && upLovePillars == old(upLovePillars) && upLoveItems == old(upLoveItems)
      ensures forall u :: u != id ==> GetUpLove(u) == old(GetUpLove(u))
    {
      if !open {
        return Failure(NotInitializedError);
      }
      // The clock is not consulted when the future is allowed.
      var checkedDate := ValidateDate(date, "date", true, 0);
      if checkedDate.Failure? {
        return Failure(checkedDate.error);
      }
      var checkedIds := ValidateArray(pillarIds, "pillarIds", 0, 10);
      if checkedIds.Failure? {
        return Failure(checkedIds.error);
      }
      var improve := ValidateStringArray(toImprove, "toImprove", 0, 50);
      if improve.Failure? {
        return Failure(improve.error);
      }
      var praise := ValidateStringArray(toPraise, "toPraise", 0, 50);
      if praise.Failure? {
        return Failure(praise.error);
      }
      var resolved := ResolvePillars(pillars, pillarIds);
      if resolved.Failure? {
        return Failure(MissingPillar(resolved.error));
      }
      InsertUpLoveRows(id, date, pillarIds, improve.value, praise.value);
      return Success(UpLove(id, date, resolved.value, improve.value, praise.value));
    }

    /**
     * `updateUpLove`: replaces the pillars and the items of an UpLove that can be
     * read, in one transaction; its date is not touched.
     */
    method UpdateUpLove(id: Id, pillarIds: seq<Id>, toImprove: seq<string>, toPraise: seq<string>) returns (r: Result<(), DbError>)
      requires Valid()
      modifies this`upLovePillars, this`upLoveItems
      ensures Valid()
      ensures !open ==> r == Failure(NotInitializedError)
      ensures open ==> match (ValidateArray(pillarIds, "pillarIds", 0, 10),
                              ValidateStringArray(toImprove, "toImprove", 0, 50), ValidateStringArray(toPraise, "toPraise", 0, 50))
        case (Failure(e), _, _) => r == Failure(e)
        case (Success(_), Failure(e), _) => r == Failure(e)
        case (Success(_), Success(_), Failure(e)) => r == Failure(e)
        case (Success(_), Success(improve), Success(praise)) =>
          match old(GetUpLove(id))
          case Failure(e) => r == Failure(e)
          case Success(None) => r == Failure(NotFound("UpLove"))
          case Success(Some(current)) =>
            match ResolvePillars(pillars, pillarIds)
            case Failure(missing) => r == Failure(MissingPillar(missing))
            case Success(resolved) => r.Success? && GetUpLove(id) == Success(Some(UpLove(id, current.date, resolved, improve, praise)))
      ensures upLoves == old(upLoves)
      ensures r.Failure? ==> upLovePillars == old(upLovePillars) && upLoveItems == old(upLoveItems)
      ensures forall u :: u != id ==> GetUpLove(u) == old(GetUpLove(u))
    {
      if !open {
        return Failure(NotInitializedError);
      }
      var checkedIds := ValidateArray(pillarIds, "pillarIds", 0, 10);
      if checkedIds.Failure? {
        return Failure(checkedIds.error);
      }
      var improve := ValidateStringArray(toImprove, "toImprove", 0, 50);
      if improve.Failure? {
        return Failure(improve.error);
      }
      var praise := ValidateStringArray(toPraise, "toPraise", 0, 50);
      if praise.Failure? {
        return Failure(praise.error);
      }
      var current := GetUpLove(id);
      if current.Failure? {
        return Failure(current.error);
      }
      if current.value.None? {
        return Failure(NotFound("UpLove"));
      }
      var resolved := ResolvePillars(pillars, pillarIds);
      if resolved.Failure? {
        return Failure(MissingPillar(resolved.error));
      }
      ReplaceUpLoveRows(id, pillarIds, improve.value, praise.value);
      return Success(());
    }

    /** `deleteUpLove`: an UpLove that can be read, with its associations and items. */
    method DeleteUpLove(id: Id) returns (r: Result<(), DbError>)
      requires Valid()
      modifies this`upLoves, this`upLovePillars, this`upLoveItems
      ensures Valid()
      ensures !open ==> r == Failure(NotInitializedError)
      ensures open ==> match old(GetUpLove(id))
        case Failure(e) => r == Failure(e)
        case Success(None) => r == Failure(NotFound("UpLove"))
        case Success(Some(_)) => r.Success? && Contents() == WithoutUpLove(old(Contents()), id)
      ensures r.Success? ==> GetUpLove(id) == Success(None)
      ensures r.Failure? ==> upLoves == old(upLoves) && upLovePillars == old(upLovePillars) && upLoveItems == old(upLoveItems)
      ensures forall u :: u != id ==> GetUpLove(u) == old(GetUpLove(u))
    {
      if !open {
        return Failure(NotInitializedError);
      }
      var current := GetUpLove(id);
      if current.Failure? {
        return Failure(current.error);
      }
      if current.value.None? {
        return Failure(NotFound("UpLove"));
      }
      var changes := Count(upLoves, id);
      if changes == 0 {
        return Failure(DataIntegrity(DeleteFailedMessage));
      }
      DeleteUpLoveRows(id);
      return Success(());
    }

    /**
     * The grouping loop of `getAllPersons`: one pass over the fetched necessity rows,
     * appending each to its owner's list, so every owner's list keeps row order.
     */
    static method GroupByOwner(rows: Table<Id, NecessityRow>) returns (groups: map<Id, seq<Necessity>>)
      ensures forall p :: p in groups ==> groups[p] == OwnedBy(rows, p)
      ensures forall p :: p !in groups ==> OwnedBy(rows, p) == []
    {
      groups := map[];
      for k := 0 to |rows|
        invariant forall p :: p in groups ==> groups[p] == OwnedBy(rows[..k], p)
        invariant forall p :: p !in groups ==> OwnedBy(rows[..k], p) == []
      {
        var row := rows[k];
        assert rows[..k + 1] == rows[..k] + [row];
        forall p ensures OwnedBy(rows[..k + 1], p) ==
          OwnedBy(rows[..k], p) + if row.1.personId == p then [NecessityOf(row.0, row.1)] else []
        {
          OwnedBySnoc(rows[..k], row, p);
        }
        var owner := row.1.personId;
        var current := if owner in groups then groups[owner] else [];
        assert current == OwnedBy(rows[..k], owner);
        groups := groups[owner := current + [NecessityOf(row.0, row.1)]];
      }
      assert rows[..|rows|] == rows;
    }

    /**
     * `getAllPersons`: the first 10 persons, their necessities fetched in one query
     * and grouped by owner; each person comes out as `getPerson` returns it.
     */
    method GetAllPersons() returns (r: Result<seq<Person>, DbError>)
      requires Valid()
      ensures !open ==> r == Failure(NotInitializedError)
      ensures open ==> r.Success?
      ensures r.Success? ==> |r.value| == if |persons| < 10 then |persons| else 10
      ensures r.Success? ==> forall i :: 0 <= i < |r.value| ==> GetPerson(persons[i].0) == Success(Some(r.value[i]))
    {
      if !open {
        return Failure(NotInitializedError);
      }
      var personRows := Take(persons, 10);
      if |personRows| == 0 {
        return Success([]);
      }
      var personIds := Keys(personRows);
      var necessityRows := OwnedByAny(necessities, personIds);
      var byPerson := GroupByOwner(necessityRows);
      var result := seq(|personRows|, i requires 0 <= i < |personRows| =>
        Person(personRows[i].0, personRows[i].1, if personRows[i].0 in byPerson then byPerson[personRows[i].0] else []));
      forall i | 0 <= i < |result| ensures GetPerson(persons[i].0) == Success(Some(result[i])) {
        assert personRows[i] == persons[i];
        LookupUnique(persons, i);
        assert persons[i].0 in personIds;
        OwnedByAnyKeepsOwner(necessities, personIds, persons[i].0);
      }
      return Success(result);
    }

    // -------------------------------------------------------------------------
    // Whole-store reset
    // -------------------------------------------------------------------------

    /**
     * `clearAllData`: deletes every row of every table in one transaction, in the
     * order of `ClearOrder`, and answers true. Without a handle it throws before
     * touching anything.
     */
    method ClearAllData() returns (r: Result<bool, DbError>)
      requires Valid()
      modifies this`metadata, this`persons, this`necessities, this`commitments
      modifies this`pillars, this`upLoves, this`upLovePillars, this`upLoveItems
      ensures Valid()
      ensures !open ==> r == Failure(NotInitialized(NoHandleMessage)) && Contents() == old(Contents())
      ensures open ==> r == Success(true) && Contents() == Cleared
    {
      if !open {
        return Failure(NotInitialized(NoHandleMessage));
      }
      DeleteAllRows();
      return Success(true);
    }

    // -------------------------------------------------------------------------
    // Statements: each write the operations above issue once their checks pass,
    // as one step on the tables
    // -------------------------------------------------------------------------

    /** `INSERT INTO persons`. */
    method InsertPersonRow(id: Id, name: string)
      requires Valid() && open && id !in Keys(persons)
      modifies this`persons
      ensures Valid()
      ensures persons == old(persons) + [(id, name)]
      ensures GetPerson(id) == Success(Some(Person(id, name, [])))
      ensures forall q :: q != id ==> GetPerson(q) == old(GetPerson(q))
    {
      AddPerson(Contents(), id, name);
      persons := persons + [(id, name)];
    }

    /** `UPDATE persons SET name = ? WHERE id = ?`. */
    method UpdatePersonRow(id: Id, name: string)
      requires Valid() && open && id in Keys(persons)
      modifies this`persons
      ensures Valid()
      ensures persons == Replace(old(persons), id, name)
      ensures GetPerson(id) == Success(Some(old(GetPerson(id)).value.value.(name := name)))
      ensures forall q :: q != id ==> GetPerson(q) == old(GetPerson(q))
    {
      RenamePerson(Contents(), id, name);
      persons := Replace(persons, id, name);
    }

    /** `DELETE FROM persons WHERE id = ?`, the necessities cascading with it. */
    method DeletePersonRow(id: Id)
      requires Valid() && open
      modifies this`persons, this`necessities
      ensures Valid()
      ensures Contents() == WithoutPerson(old(Contents()), id)
      ensures GetPerson(id) == Success(None)
      ensures forall q :: q != id ==> GetPerson(q) == old(GetPerson(q))
      ensures forall n :: GetNecessity(n) == if old(OwnedNecessity(Contents(), n, id)) then Success(None) else old(GetNecessity(n))
    {
      RemovePerson(Contents(), id);
      persons, necessities := Remove(persons, id), DropOwnedBy(necessities, id);
    }

    /** `INSERT INTO necessities`. */
    method InsertNecessityRow(id: Id, row: NecessityRow)
      requires Valid() && open && id !in Keys(necessities) && row.personId in Keys(persons)
      modifies this`necessities
      ensures Valid()
      ensures necessities == old(necessities) + [(id, row)]
      ensures GetNecessity(id) == Success(Some(NecessityOf(id, row)))
      ensures GetNecessitiesByPerson(row.personId) == Success(old(GetNecessitiesByPerson(row.personId)).value + [NecessityOf(id, row)])
      ensures forall n :: n != id ==> GetNecessity(n) == old(GetNecessity(n))
      ensures forall q :: q != row.personId ==> GetPerson(q) == old(GetPerson(q))
    {
      AddNecessity(Contents(), id, row);
      necessities := necessities + [(id, row)];
    }

    /** `UPDATE necessities SET name = ?, description = ? WHERE id = ?`. */
    method UpdateNecessityRow(id: Id, row: NecessityRow)
      requires Valid() && open && id in Keys(necessities)
      requires row.personId == Lookup(necessities, id).value.personId
      modifies this`necessities
      ensures Valid()
      ensures necessities == Replace(old(necessities), id, row)
      ensures GetNecessity(id) == Success(Some(NecessityOf(id, row)))
      ensures forall n :: n != id ==> GetNecessity(n) == old(GetNecessity(n))
    {
      EditNecessity(Contents(), id, row);
      necessities := Replace(necessities, id, row);
    }

    /** `DELETE FROM necessities WHERE id = ?`. */
    method DeleteNecessityRow(id: Id)
      requires Valid() && open
      modifies this`necessities
      ensures Valid()
      ensures necessities == Remove(old(necessities), id)
      ensures GetNecessity(id) == Success(None)
      ensures forall n :: n != id ==> GetNecessity(n) == old(GetNecessity(n))
    {
      RemoveNecessity(Contents(), id);
      necessities := Remove(necessities, id);
    }

    /** `INSERT INTO commitments`, the row's tag in its `type` column. */
    method InsertCommitmentRow(id: Id, row: CommitmentRow)
      requires Valid() && open && id !in Keys(commitments) && (row.isDone == 0 || row.isDone == 1)
      modifies this`commitments
      ensures Valid()
      ensures commitments == old(commitments) + [(id, row)]
      ensures GetCommitment(id, row.tag) == Success(Some(CommitmentOf(id, row)))
      ensures forall other :: other != row.tag ==> GetCommitment(id, other) == Success(None)
      ensures forall n, t :: n != id ==> GetCommitment(n, t) == old(GetCommitment(n, t))
    {
      AddCommitment(Contents(), id, row);
      commitments := commitments + [(id, row)];
    }

    /** `UPDATE commitments SET description = ?, is_done = ? WHERE id = ? AND type = ?`. */
    method UpdateCommitmentRow(id: Id, row: CommitmentRow)
      requires Valid() && open && GetCommitment(id, row.tag).value.Some? && (row.isDone == 0 || row.isDone == 1)
      modifies this`commitments
      ensures Valid()
      ensures commitments == Replace(old(commitments), id, row)
      ensures GetCommitment(id, row.tag) == Success(Some(CommitmentOf(id, row)))
      ensures forall n, t :: n != id ==> GetCommitment(n, t) == old(GetCommitment(n, t))
    {
      EditCommitment(Contents(), id, row);
      commitments := Replace(commitments, id, row);
    }

    /**
     * `DELETE FROM commitments WHERE id = ? AND type = ?`, on a row found with
     * that type: under the primary key it is the only row with that id, so the
     * delete removes the id.
     */
    method DeleteCommitmentRow(tag: Tag, id: Id)
      requires Valid() && open && GetCommitment(id, tag).value.Some?
      modifies this`commitments
      ensures Valid()
      ensures commitments == Remove(old(commitments), id)
      ensures forall t :: GetCommitment(id, t) == Success(None)
      ensures forall n, t :: n != id ==> GetCommitment(n, t) == old(GetCommitment(n, t))
    {
      RemoveCommitment(Contents(), id);
      commitments := Remove(commitments, id);
    }

    /** `INSERT INTO pillars`. */
    method InsertPillarRow(id: Id, row: PillarRow)
      requires Valid() && open && id !in Keys(pillars) && 1 <= row.satisfaction <= 10
      modifies this`pillars
      ensures Valid()
      ensures pillars == old(pillars) + [(id, row)]
      ensures GetPillar(id) == Success(Some(PillarOf(id, row)))
      ensures forall n :: n != id ==> GetPillar(n) == old(GetPillar(n))
    {
      AddPillar(Contents(), id, row);
      pillars := pillars + [(id, row)];
    }

    /** `UPDATE pillars SET name = ?, priority = ?, satisfaction = ? WHERE id = ?`. */
    method UpdatePillarRow(id: Id, row: PillarRow)
      requires Valid() && open && id in Keys(pillars) && 1 <= row.satisfaction <= 10
      modifies this`pillars
      ensures Valid()
      ensures pillars == Replace(old(pillars), id, row)
      ensures GetPillar(id) == Success(Some(PillarOf(id, row)))
      ensures forall n :: n != id ==> GetPillar(n) == old(GetPillar(n))
      ensures forall u :: GetUpLove(u) == Repointed(old(GetUpLove(u)), PillarOf(id, row))
      ensures forall u :: id !in ValuesOf(upLovePillars, u) ==> GetUpLove(u) == old(GetUpLove(u))
    {
      EditPillar(Contents(), id, row);
      pillars := Replace(pillars, id, row);
    }

    /** `DELETE FROM pillars WHERE id = ?`; the association rows naming it stay. */
    method DeletePillarRow(id: Id)
      requires Valid() && open
      modifies this`pillars
      ensures Valid()
      ensures pillars == Remove(old(pillars), id)
      ensures GetPillar(id) == Success(None)
      ensures forall n :: n != id ==> GetPillar(n) == old(GetPillar(n))
      ensures forall u :: u in Keys(upLoves) && id in ValuesOf(upLovePillars, u) ==>
        GetUpLove(u) == Failure(DataIntegrity(IntegrityMessage))
      ensures forall u :: id !in ValuesOf(upLovePillars, u) ==> GetUpLove(u) == old(GetUpLove(u))
    {
      RemovePillar(Contents(), id);
      pillars := Remove(pillars, id);
    }

    /** `createUpLove`'s transaction: the UpLove row, one row per pillar id, one row per item. */
    method InsertUpLoveRows(id: Id, date: Date, pillarIds: seq<Id>, toImprove: seq<string>, toPraise: seq<string>)
      requires Valid() && open && id !in Keys(upLoves)
      requires ResolvePillars(pillars, pillarIds).Success?
      modifies this`upLoves, this`upLovePillars, this`upLoveItems
      ensures Valid()
      ensures Contents() == WithUpLove(old(Contents()), id, date, pillarIds, toImprove, toPraise)
      ensures GetUpLove(id) == Success(Some(UpLove(id, date, ResolvePillars(pillars, pillarIds).value, toImprove, toPraise)))
      ensures forall u :: u != id ==> GetUpLove(u) == old(GetUpLove(u))
    {
      var links := LinkRows(id, pillarIds);
      var items := ItemRowsOf(id, toImprove, toPraise);
      ghost var before := Contents();
      AddUpLove(before, id, date, pillarIds, toImprove, toPraise);
      upLoves, upLovePillars, upLoveItems := upLoves + [(id, date)], upLovePillars + links, upLoveItems + items;
      assert Contents() == WithUpLove(before, id, date, pillarIds, toImprove, toPraise);
    }

    /** `updateUpLove`'s transaction: the old association and item rows out, the new ones in. */
    method ReplaceUpLoveRows(id: Id, pillarIds: seq<Id>, toImprove: seq<string>, toPraise: seq<string>)
      requires Valid() && open && id in Keys(upLoves)
      requires ResolvePillars(pillars, pillarIds).Success?
      modifies this`upLovePillars, this`upLoveItems
      ensures Valid()
      ensures Contents() == WithLinks(old(Contents()), id, pillarIds, toImprove, toPraise)
      ensures GetUpLove(id) == Success(Some(UpLove(id, Lookup(upLoves, id).value, ResolvePillars(pillars, pillarIds).value, toImprove, toPraise)))
      ensures forall u :: u != id ==> GetUpLove(u) == old(GetUpLove(u))
    {
      var links := LinkRows(id, pillarIds);
      var items := ItemRowsOf(id, toImprove, toPraise);
      ghost var before := Contents();
      ReplaceLinks(before, id, pillarIds, toImprove, toPraise);
      upLovePillars, upLoveItems := Remove(upLovePillars, id) + links, Remove(upLoveItems, id) + items;
      assert Contents() == WithLinks(before, id, pillarIds, toImprove, toPraise);
    }

    /** `DELETE FROM up_loves WHERE id = ?`, the association and item rows cascading with it. */
    method DeleteUpLoveRows(id: Id)
      requires Valid() && open
      modifies this`upLoves, this`upLovePillars, this`upLoveItems
      ensures Valid()
      ensures Contents() == WithoutUpLove(old(Contents()), id)
      ensures GetUpLove(id) == Success(None)
      ensures forall u :: u != id ==> GetUpLove(u) == old(GetUpLove(u))
    {
      ghost var before := Contents();
      RemoveUpLove(before, id);
      upLoves, upLovePillars, upLoveItems := Remove(upLoves, id), Remove(upLovePillars, id), Remove(upLoveItems, id);
      assert Contents() == WithoutUpLove(before, id);
    }

    /** `DELETE FROM n`, with the deletes it cascades to. */
    method DeleteFrom(n: TableName)
      requires Valid() && open
      modifies this`metadata, this`persons, this`necessities, this`commitments
      modifies this`pillars, this`upLoves, this`upLovePillars, this`upLoveItems
      ensures Valid()
      ensures Contents() == DeleteAll(old(Contents()), n)
    {
      DeleteAllKeepsIntact(Contents(), n);
      match n {
        case RelationshipMetadata => metadata := None;
        case UpLoveItems => upLoveItems := [];
        case UpLovePillars => upLovePillars := [];
        case UpLoves => upLoves, upLovePillars, upLoveItems := [], [], [];
        case Pillars => pillars := [];
        case Commitments => commitments := [];
        case Necessities => necessities := [];
        case Persons => persons, necessities := [], [];
      }
    }

    /**
     * `clearAllData`'s transaction: one `DELETE FROM` per table, in `ClearOrder`.
     * Every table is emptied once its turn comes, and the tables already
     * emptied stay empty, so the database ends with no rows at all.
     */
    method DeleteAllRows()
      requires Valid() && open
      modifies this`metadata, this`persons, this`necessities, this`commitments
      modifies this`pillars, this`upLoves, this`upLovePillars, this`upLoveItems
      ensures Valid()
      ensures Contents() == Cleared
    {
      ClearOrderChildrenFirst();
      for k := 0 to |ClearOrder|
        invariant Valid()
        invariant forall j :: 0 <= j < k ==> IsEmpty(Contents(), ClearOrder[j])
      {
        DeleteFrom(ClearOrder[k]);
      }
      forall n ensures IsEmpty(Contents(), n) {
        assert n in ClearOrder;
        var j :| 0 <= j < |ClearOrder| && ClearOrder[j] == n;
      }
      AllEmptyIsCleared(Contents());
    }
  }
}
