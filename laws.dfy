/**
 * What each write of the persistence service does to the database, stated over the
 * views its read operations return: the written entity reads back as written, every
 * other entity reads as before, and the integrity of the store is kept. UpLoves read
 * their pillars afresh, so a pillar write shows in every UpLove that names the pillar.
 */
module Laws {
  import opened Wrappers
  import opened Errors
  import opened Priorities
  import opened Entities
  import opened Tables
  import opened Store

  // ---------------------------------------------------------------------------
  // Persons
  // ---------------------------------------------------------------------------

  /** `INSERT INTO persons`: the new person reads back with no necessities. */
  lemma AddPerson(c: DbContents, id: Id, name: string)
    requires Intact(c) && id !in Keys(c.persons)
    ensures Intact(c.(persons := c.persons + [(id, name)]))
    ensures PersonView(c.(persons := c.persons + [(id, name)]), id) == Some(Person(id, name, []))
    ensures forall q :: q != id ==> PersonView(c.(persons := c.persons + [(id, name)]), q) == PersonView(c, q)
  {
    UniqueAppend(c.persons, (id, name));
    forall q ensures Lookup(c.persons + [(id, name)], q) == if q == id then Some(name) else Lookup(c.persons, q) {
      LookupAppend(c.persons, id, name, q);
    }
  }

  /** `UPDATE persons SET name`: the person reads back renamed, with the same necessities. */
  lemma RenamePerson(c: DbContents, id: Id, name: string)
    requires Intact(c) && id in Keys(c.persons)
    ensures Intact(c.(persons := Replace(c.persons, id, name)))
    ensures PersonView(c.(persons := Replace(c.persons, id, name)), id) == Some(PersonView(c, id).value.(name := name))
    ensures forall q :: q != id ==> PersonView(c.(persons := Replace(c.persons, id, name)), q) == PersonView(c, q)
  {
    forall q ensures Lookup(Replace(c.persons, id, name), q) == if q == id then Some(name) else Lookup(c.persons, q) {
      LookupReplace(c.persons, id, name, q);
    }
  }

  /** The state after `DELETE FROM persons`, whose necessities go with it. */
  function WithoutPerson(c: DbContents, id: Id): DbContents {
    c.(persons := Remove(c.persons, id), necessities := DropOwnedBy(c.necessities, id))
  }

  /** Whether `n` is a necessity of person `id`. */
  predicate OwnedNecessity(c: DbContents, n: Id, id: Id) {
    Lookup(c.necessities, n).Some? && Lookup(c.necessities, n).value.personId == id
  }

  /**
   * Deleting a person: it is no longer found, nor is any of its former necessities;
   * every other person and necessity reads as before.
   */
  lemma RemovePerson(c: DbContents, id: Id)
    requires Intact(c)
    ensures Intact(WithoutPerson(c, id))
    ensures PersonView(WithoutPerson(c, id), id) == None
    ensures forall q :: q != id ==> PersonView(WithoutPerson(c, id), q) == PersonView(c, q)
    ensures forall n :: NecessityView(WithoutPerson(c, id), n) == (if OwnedNecessity(c, n, id) then None else NecessityView(c, n))
  {
    var d := WithoutPerson(c, id);
    forall q ensures Lookup(d.persons, q) == if q == id then None else Lookup(c.persons, q) {
      LookupRemove(c.persons, id, q);
    }
    forall q | q != id ensures OwnedBy(d.necessities, q) == OwnedBy(c.necessities, q) {
      OwnedByDrop(c.necessities, id, q);
    }
    forall n ensures Lookup(d.necessities, n) ==
      if Lookup(c.necessities, n).Some? && Lookup(c.necessities, n).value.personId != id then Lookup(c.necessities, n) else None
    {
      LookupDrop(c.necessities, id, n);
    }
    forall i | 0 <= i < |d.necessities| ensures d.necessities[i].1.personId in Keys(d.persons) {
      var row := d.necessities[i];
      assert row in c.necessities;
      var j :| 0 <= j < |c.necessities| && c.necessities[j] == row;
      assert row.1.personId in Keys(c.persons);
    }
  }

  // ---------------------------------------------------------------------------
  // Necessities
  // ---------------------------------------------------------------------------

  /**
   * `INSERT INTO necessities` for an existing person: the necessity reads back, and
   * its owner's list gains it at the end.
   */
  lemma AddNecessity(c: DbContents, id: Id, row: NecessityRow)
    requires Intact(c) && id !in Keys(c.necessities) && row.personId in Keys(c.persons)
    ensures Intact(c.(necessities := c.necessities + [(id, row)]))
    ensures NecessityView(c.(necessities := c.necessities + [(id, row)]), id) == Some(NecessityOf(id, row))
    ensures forall n :: n != id ==> NecessityView(c.(necessities := c.necessities + [(id, row)]), n) == NecessityView(c, n)
    ensures PersonView(c.(necessities := c.necessities + [(id, row)]), row.personId) ==
      Some(PersonView(c, row.personId).value.(necessities := PersonView(c, row.personId).value.necessities + [NecessityOf(id, row)]))
    ensures forall q :: q != row.personId ==> PersonView(c.(necessities := c.necessities + [(id, row)]), q) == PersonView(c, q)
  {
    var rows := c.necessities + [(id, row)];
    UniqueAppend(c.necessities, (id, row));
    forall n ensures Lookup(rows, n) == if n == id then Some(row) else Lookup(c.necessities, n) {
      LookupAppend(c.necessities, id, row, n);
    }
    forall q ensures OwnedBy(rows, q) == OwnedBy(c.necessities, q) + if q == row.personId then [NecessityOf(id, row)] else [] {
      OwnedByConcat(c.necessities, [(id, row)], q);
      assert [(id, row)][1..] == [];
      assert OwnedBy([(id, row)], q) == if q == row.personId then [NecessityOf(id, row)] else [];
    }
    forall q | q != row.personId ensures OwnedBy(rows, q) == OwnedBy(c.necessities, q) {
      assert OwnedBy(c.necessities, q) + [] == OwnedBy(c.necessities, q);
    }
  }

  /** `UPDATE necessities SET name, description`: the owner stays, the necessity reads back edited. */
  lemma EditNecessity(c: DbContents, id: Id, row: NecessityRow)
    requires Intact(c) && id in Keys(c.necessities)
    requires row.personId == Lookup(c.necessities, id).value.personId
    ensures Intact(c.(necessities := Replace(c.necessities, id, row)))
    ensures NecessityView(c.(necessities := Replace(c.necessities, id, row)), id) == Some(NecessityOf(id, row))
    ensures forall n :: n != id ==> NecessityView(c.(necessities := Replace(c.necessities, id, row)), n) == NecessityView(c, n)
  {
    var rows := Replace(c.necessities, id, row);
    forall n ensures Lookup(rows, n) == if n == id then Some(row) else Lookup(c.necessities, n) {
      LookupReplace(c.necessities, id, row, n);
    }
    var owner := row.personId;
    assert owner in Keys(c.persons) by {
      var j :| 0 <= j < |c.necessities| && c.necessities[j] == (id, Lookup(c.necessities, id).value);
    }
    forall i | 0 <= i < |rows| ensures rows[i].1.personId in Keys(c.persons) {
      if c.necessities[i].0 != id {
        assert rows[i] == c.necessities[i];
      }
    }
  }

  /** `DELETE FROM necessities`: the necessity is no longer found, every other one is. */
  lemma RemoveNecessity(c: DbContents, id: Id)
    requires Intact(c)
    ensures Intact(c.(necessities := Remove(c.necessities, id)))
    ensures NecessityView(c.(necessities := Remove(c.necessities, id)), id) == None
    ensures forall n :: n != id ==> NecessityView(c.(necessities := Remove(c.necessities, id)), n) == NecessityView(c, n)
  {
    var rows := Remove(c.necessities, id);
    RemoveRows(c.necessities, id);
    forall n ensures Lookup(rows, n) == if n == id then None else Lookup(c.necessities, n) {
      LookupRemove(c.necessities, id, n);
    }
    forall i | 0 <= i < |rows| ensures rows[i].1.personId in Keys(c.persons) {
      var j :| 0 <= j < |c.necessities| && c.necessities[j] == rows[i];
    }
  }

  // ---------------------------------------------------------------------------
  // Commitments
  // ---------------------------------------------------------------------------

  /** `INSERT INTO commitments`: the commitment reads back under its own tag only. */
  lemma AddCommitment(c: DbContents, id: Id, row: CommitmentRow)
    requires Intact(c) && id !in Keys(c.commitments) && (row.isDone == 0 || row.isDone == 1)
    ensures Intact(c.(commitments := c.commitments + [(id, row)]))
    ensures CommitmentView(c.(commitments := c.commitments + [(id, row)]), id, row.tag) == Some(CommitmentOf(id, row))
    ensures forall tag :: tag != row.tag ==> CommitmentView(c.(commitments := c.commitments + [(id, row)]), id, tag) == None
    ensures forall n, tag :: n != id ==>
      CommitmentView(c.(commitments := c.commitments + [(id, row)]), n, tag) == CommitmentView(c, n, tag)
  {
    UniqueAppend(c.commitments, (id, row));
    forall n ensures Lookup(c.commitments + [(id, row)], n) == if n == id then Some(row) else Lookup(c.commitments, n) {
      LookupAppend(c.commitments, id, row, n);
    }
  }

  /** `UPDATE commitments ... WHERE id = ? AND type = ?` on a row of that tag: it reads back edited. */
  lemma EditCommitment(c: DbContents, id: Id, row: CommitmentRow)
    requires Intact(c) && CommitmentView(c, id, row.tag).Some? && (row.isDone == 0 || row.isDone == 1)
    ensures Intact(c.(commitments := Replace(c.commitments, id, row)))
    ensures CommitmentView(c.(commitments := Replace(c.commitments, id, row)), id, row.tag) == Some(CommitmentOf(id, row))
    ensures forall n, tag :: n != id ==>
      CommitmentView(c.(commitments := Replace(c.commitments, id, row)), n, tag) == CommitmentView(c, n, tag)
  {
    var rows := Replace(c.commitments, id, row);
    forall n ensures Lookup(rows, n) == if n == id then Some(row) else Lookup(c.commitments, n) {
      LookupReplace(c.commitments, id, row, n);
    }
    forall i | 0 <= i < |rows| ensures rows[i].1.isDone == 0 || rows[i].1.isDone == 1 {
      if c.commitments[i].0 != id {
        assert rows[i] == c.commitments[i];
      }
    }
  }

  /** `DELETE FROM commitments`: the id is found under no tag, every other commitment is. */
  lemma RemoveCommitment(c: DbContents, id: Id)
    requires Intact(c)
    ensures Intact(c.(commitments := Remove(c.commitments, id)))
    ensures forall tag :: CommitmentView(c.(commitments := Remove(c.commitments, id)), id, tag) == None
    ensures forall n, tag :: n != id ==>
      CommitmentView(c.(commitments := Remove(c.commitments, id)), n, tag) == CommitmentView(c, n, tag)
  {
    var rows := Remove(c.commitments, id);
    RemoveRows(c.commitments, id);
    forall n ensures Lookup(rows, n) == if n == id then None else Lookup(c.commitments, n) {
      LookupRemove(c.commitments, id, n);
    }
    forall i | 0 <= i < |rows| ensures rows[i].1.isDone == 0 || rows[i].1.isDone == 1 {
      var j :| 0 <= j < |c.commitments| && c.commitments[j] == rows[i];
    }
  }

  // ---------------------------------------------------------------------------
  // Pillars
  // ---------------------------------------------------------------------------

  /** `INSERT INTO pillars`: the pillar reads back as written. */
  lemma AddPillar(c: DbContents, id: Id, row: PillarRow)
    requires Intact(c) && id !in Keys(c.pillars) && 1 <= row.satisfaction <= 10
    ensures Intact(c.(pillars := c.pillars + [(id, row)]))
    ensures PillarView(c.(pillars := c.pillars + [(id, row)]), id) == Some(PillarOf(id, row))
    ensures forall n :: n != id ==> PillarView(c.(pillars := c.pillars + [(id, row)]), n) == PillarView(c, n)
  {
    UniqueAppend(c.pillars, (id, row));
    forall n ensures Lookup(c.pillars + [(id, row)], n) == if n == id then Some(row) else Lookup(c.pillars, n) {
      LookupAppend(c.pillars, id, row, n);
    }
  }

  /** Resolving a list of pillar ids depends only on the rows those ids find. */
  lemma {:induction false} ResolveSameLookups(t: Table<Id, PillarRow>, t': Table<Id, PillarRow>, ids: seq<Id>)
    requires forall i :: 0 <= i < |ids| ==> Lookup(t', ids[i]) == Lookup(t, ids[i])
    ensures ResolvePillars(t', ids) == ResolvePillars(t, ids)
  {
    if ids != [] {
      assert forall i :: 0 <= i < |ids[1..]| ==> ids[1..][i] == ids[i + 1];
      ResolveSameLookups(t, t', ids[1..]);
    }
  }

  /**
   * What a read of an UpLove becomes once pillar `p.id` is re-read as `p`: every
   * entry for that pillar shows `p`, every other entry and every other outcome is kept.
   */
  function Repointed(r: Result<Option<UpLove>, DbError>, p: PillarData): Result<Option<UpLove>, DbError> {
    match r
    case Success(Some(v)) =>
      Success(Some(v.(pillars := seq(|v.pillars|, k requires 0 <= k < |v.pillars| => if v.pillars[k].id == p.id then p else v.pillars[k]))))
    case _ => r
  }

  /**
   * `UPDATE pillars SET name, priority, satisfaction`: the pillar reads back edited,
   * every UpLove naming it shows the edited pillar there, and every UpLove not naming
   * it reads as before.
   */
  lemma EditPillar(c: DbContents, id: Id, row: PillarRow)
    requires Intact(c) && id in Keys(c.pillars) && 1 <= row.satisfaction <= 10
    ensures Intact(c.(pillars := Replace(c.pillars, id, row)))
    ensures PillarView(c.(pillars := Replace(c.pillars, id, row)), id) == Some(PillarOf(id, row))
    ensures forall n :: n != id ==> PillarView(c.(pillars := Replace(c.pillars, id, row)), n) == PillarView(c, n)
    ensures forall u :: UpLoveView(c.(pillars := Replace(c.pillars, id, row)), u) == Repointed(UpLoveView(c, u), PillarOf(id, row))
    ensures forall u :: id !in ValuesOf(c.upLovePillars, u) ==> UpLoveView(c.(pillars := Replace(c.pillars, id, row)), u) == UpLoveView(c, u)
  {
    var rows := Replace(c.pillars, id, row);
    forall n ensures Lookup(rows, n) == if n == id then Some(row) else Lookup(c.pillars, n) {
      LookupReplace(c.pillars, id, row, n);
    }
    forall i | 0 <= i < |rows| ensures 1 <= rows[i].1.satisfaction <= 10 {
      if c.pillars[i].0 != id {
        assert rows[i] == c.pillars[i];
      }
    }
    forall u ensures UpLoveView(c.(pillars := rows), u) == Repointed(UpLoveView(c, u), PillarOf(id, row)) {
      EditPillarRereads(c, id, row, u);
    }
    forall u | id !in ValuesOf(c.upLovePillars, u) ensures UpLoveView(c.(pillars := rows), u) == UpLoveView(c, u) {
      ResolveSameLookups(c.pillars, rows, ValuesOf(c.upLovePillars, u));
    }
  }

  /** One UpLove after a pillar edit: the edited pillar shows wherever the UpLove names it. */
  lemma EditPillarRereads(c: DbContents, id: Id, row: PillarRow, u: Id)
    requires id in Keys(c.pillars)
    ensures UpLoveView(c.(pillars := Replace(c.pillars, id, row)), u) == Repointed(UpLoveView(c, u), PillarOf(id, row))
  {
    var rows := Replace(c.pillars, id, row);
    if Lookup(c.upLoves, u).Some? {
      var ids := ValuesOf(c.upLovePillars, u);
      var before := ResolvePillars(c.pillars, ids);
      var after := ResolvePillars(rows, ids);
      if before.Success? {
        var p := PillarOf(id, row);
        forall k | 0 <= k < |ids| ensures after.value[k] == if before.value[k].id == p.id then p else before.value[k] {
          LookupReplace(c.pillars, id, row, ids[k]);
        }
        var v := UpLoveView(c, u).value.value;
        assert v.pillars == before.value;
        var shown := seq(|v.pillars|, k requires 0 <= k < |v.pillars| => if v.pillars[k].id == p.id then p else v.pillars[k]);
        assert Repointed(UpLoveView(c, u), p) == Success(Some(v.(pillars := shown)));
        assert shown == after.value;
      } else {
        assert after.Failure?;
      }
    }
  }

  /**
   * `DELETE FROM pillars`: the pillar is no longer found, every other one is, and
   * every UpLove that still refers to it can no longer be read.
   */
  lemma RemovePillar(c: DbContents, id: Id)
    requires Intact(c)
    ensures Intact(c.(pillars := Remove(c.pillars, id)))
    ensures PillarView(c.(pillars := Remove(c.pillars, id)), id) == None
    ensures forall n :: n != id ==> PillarView(c.(pillars := Remove(c.pillars, id)), n) == PillarView(c, n)
    ensures forall u :: u in Keys(c.upLoves) && id in ValuesOf(c.upLovePillars, u) ==>
      UpLoveView(c.(pillars := Remove(c.pillars, id)), u) == Failure(DataIntegrity(IntegrityMessage))
    ensures forall u :: id !in ValuesOf(c.upLovePillars, u) ==> UpLoveView(c.(pillars := Remove(c.pillars, id)), u) == UpLoveView(c, u)
  {
    var rows := Remove(c.pillars, id);
    RemoveRows(c.pillars, id);
    forall n ensures Lookup(rows, n) == if n == id then None else Lookup(c.pillars, n) {
      LookupRemove(c.pillars, id, n);
    }
    forall i | 0 <= i < |rows| ensures 1 <= rows[i].1.satisfaction <= 10 {
      var j :| 0 <= j < |c.pillars| && c.pillars[j] == rows[i];
    }
    forall u | u in Keys(c.upLoves) && id in ValuesOf(c.upLovePillars, u)
      ensures ResolvePillars(rows, ValuesOf(c.upLovePillars, u)).Failure?
    {
      var ids := ValuesOf(c.upLovePillars, u);
      var k :| 0 <= k < |ids| && ids[k] == id;
      assert ids[k] !in Keys(rows);
    }
    forall u | id !in ValuesOf(c.upLovePillars, u)
      ensures UpLoveView(c.(pillars := rows), u) == UpLoveView(c, u)
    {
      ResolveSameLookups(c.pillars, rows, ValuesOf(c.upLovePillars, u));
    }
  }

  // ---------------------------------------------------------------------------
  // UpLoves
  // ---------------------------------------------------------------------------

  /** The state after the `createUpLove` transaction commits. */
  function WithUpLove(c: DbContents, id: Id, date: Date, pillarIds: seq<Id>, toImprove: seq<string>, toPraise: seq<string>): DbContents {
    c.(upLoves := c.upLoves + [(id, date)],
       upLovePillars := c.upLovePillars + Rows(id, pillarIds),
       upLoveItems := c.upLoveItems + ItemRows(id, toImprove, toPraise))
  }

  /** The state after the `updateUpLove` transaction commits: the associations and items replaced. */
  function WithLinks(c: DbContents, id: Id, pillarIds: seq<Id>, toImprove: seq<string>, toPraise: seq<string>): DbContents {
    c.(upLovePillars := Remove(c.upLovePillars, id) + Rows(id, pillarIds),
       upLoveItems := Remove(c.upLoveItems, id) + ItemRows(id, toImprove, toPraise))
  }

  /** The state after `DELETE FROM up_loves`, whose associations and items go with it. */
  function WithoutUpLove(c: DbContents, id: Id): DbContents {
    c.(upLoves := Remove(c.upLoves, id),
       upLovePillars := Remove(c.upLovePillars, id),
       upLoveItems := Remove(c.upLoveItems, id))
  }

  /** What an UpLove's rows read back as, once its associations and items are exactly the given ones. */
  lemma {:induction false} ReadsBackAs(c: DbContents, id: Id, date: Date, pillarIds: seq<Id>, toImprove: seq<string>, toPraise: seq<string>)
    requires Lookup(c.upLoves, id) == Some(date)
    requires forall i :: 0 <= i < |pillarIds| ==> pillarIds[i] in Keys(c.pillars)
    requires ValuesOf(c.upLovePillars, id) == pillarIds
    requires ValuesOf(c.upLoveItems, id) == WithKind(ToImprove, toImprove) + WithKind(ToPraise, toPraise)
    ensures UpLoveView(c, id) == Success(Some(UpLove(id, date, ResolvePillars(c.pillars, pillarIds).value, toImprove, toPraise)))
  {
    ItemsReadBack(toImprove, toPraise);
  }

  /** An UpLove reads the same from two states that agree on its rows and on the pillars. */
  lemma SameRowsSameView(c: DbContents, d: DbContents, u: Id)
    requires d.pillars == c.pillars
    requires Lookup(d.upLoves, u) == Lookup(c.upLoves, u)
    requires ValuesOf(d.upLovePillars, u) == ValuesOf(c.upLovePillars, u)
    requires ValuesOf(d.upLoveItems, u) == ValuesOf(c.upLoveItems, u)
    ensures UpLoveView(d, u) == UpLoveView(c, u)
  {
  }

  lemma AddUpLoveKeepsIntact(c: DbContents, id: Id, date: Date, pillarIds: seq<Id>, toImprove: seq<string>, toPraise: seq<string>)
    requires Intact(c) && id !in Keys(c.upLoves)
    ensures Intact(WithUpLove(c, id, date, pillarIds, toImprove, toPraise))
  {
    var items := WithKind(ToImprove, toImprove) + WithKind(ToPraise, toPraise);
    UniqueAppend(c.upLoves, (id, date));
    KeysConcat(c.upLovePillars, Rows(id, pillarIds));
    KeysConcat(c.upLoveItems, Rows(id, items));
  }

  /** `createUpLove`'s transaction: the new UpLove reads back as written, every other one as before. */
  lemma AddUpLove(c: DbContents, id: Id, date: Date, pillarIds: seq<Id>, toImprove: seq<string>, toPraise: seq<string>)
    requires Intact(c) && id !in Keys(c.upLoves)
    requires forall i :: 0 <= i < |pillarIds| ==> pillarIds[i] in Keys(c.pillars)
    ensures Intact(WithUpLove(c, id, date, pillarIds, toImprove, toPraise))
    ensures UpLoveView(WithUpLove(c, id, date, pillarIds, toImprove, toPraise), id) ==
      Success(Some(UpLove(id, date, ResolvePillars(c.pillars, pillarIds).value, toImprove, toPraise)))
    ensures forall u :: u != id ==> UpLoveView(WithUpLove(c, id, date, pillarIds, toImprove, toPraise), u) == UpLoveView(c, u)
  {
    AddUpLoveKeepsIntact(c, id, date, pillarIds, toImprove, toPraise);
    var d := WithUpLove(c, id, date, pillarIds, toImprove, toPraise);
    var items := WithKind(ToImprove, toImprove) + WithKind(ToPraise, toPraise);
    forall u | u != id ensures UpLoveView(d, u) == UpLoveView(c, u) {
      LookupAppend(c.upLoves, id, date, u);
      ValuesOfAppend(c.upLovePillars, Rows(id, pillarIds), u);
      ValuesOfRows(id, pillarIds, u);
      ValuesOfAppend(c.upLoveItems, Rows(id, items), u);
      ValuesOfRows(id, items, u);
      assert ValuesOf(c.upLovePillars, u) + [] == ValuesOf(c.upLovePillars, u);
      assert ValuesOf(c.upLoveItems, u) + [] == ValuesOf(c.upLoveItems, u);
      SameRowsSameView(c, d, u);
    }
    LookupAppend(c.upLoves, id, date, id);
    ValuesOfAppend(c.upLovePillars, Rows(id, pillarIds), id);
    ValuesOfRows(id, pillarIds, id);
    ValuesOfAppend(c.upLoveItems, Rows(id, items), id);
    ValuesOfRows(id, items, id);
    assert [] + pillarIds == pillarIds;
    assert [] + items == items;
    ReadsBackAs(d, id, date, pillarIds, toImprove, toPraise);
  }

  lemma ReplaceLinksKeepsIntact(c: DbContents, id: Id, pillarIds: seq<Id>, toImprove: seq<string>, toPraise: seq<string>)
    requires Intact(c) && id in Keys(c.upLoves)
    ensures Intact(WithLinks(c, id, pillarIds, toImprove, toPraise))
  {
    var items := WithKind(ToImprove, toImprove) + WithKind(ToPraise, toPraise);
    KeysConcat(Remove(c.upLovePillars, id), Rows(id, pillarIds));
    KeysConcat(Remove(c.upLoveItems, id), Rows(id, items));
  }

  /** `updateUpLove`'s transaction: the UpLove keeps its date and reads back with the new contents. */
  lemma ReplaceLinks(c: DbContents, id: Id, pillarIds: seq<Id>, toImprove: seq<string>, toPraise: seq<string>)
    requires Intact(c) && id in Keys(c.upLoves)
    requires forall i :: 0 <= i < |pillarIds| ==> pillarIds[i] in Keys(c.pillars)
    ensures Intact(WithLinks(c, id, pillarIds, toImprove, toPraise))
    ensures UpLoveView(WithLinks(c, id, pillarIds, toImprove, toPraise), id) ==
      Success(Some(UpLove(id, Lookup(c.upLoves, id).value, ResolvePillars(c.pillars, pillarIds).value, toImprove, toPraise)))
    ensures forall u :: u != id ==> UpLoveView(WithLinks(c, id, pillarIds, toImprove, toPraise), u) == UpLoveView(c, u)
  {
    ReplaceLinksKeepsIntact(c, id, pillarIds, toImprove, toPraise);
    var d := WithLinks(c, id, pillarIds, toImprove, toPraise);
    var items := WithKind(ToImprove, toImprove) + WithKind(ToPraise, toPraise);
    forall u | u != id ensures UpLoveView(d, u) == UpLoveView(c, u) {
      ValuesOfAppend(Remove(c.upLovePillars, id), Rows(id, pillarIds), u);
      ValuesOfRows(id, pillarIds, u);
      ValuesOfRemove(c.upLovePillars, id, u);
      ValuesOfAppend(Remove(c.upLoveItems, id), Rows(id, items), u);
      ValuesOfRows(id, items, u);
      ValuesOfRemove(c.upLoveItems, id, u);
      assert ValuesOf(c.upLovePillars, u) + [] == ValuesOf(c.upLovePillars, u);
      assert ValuesOf(c.upLoveItems, u) + [] == ValuesOf(c.upLoveItems, u);
      SameRowsSameView(c, d, u);
    }
    ValuesOfAppend(Remove(c.upLovePillars, id), Rows(id, pillarIds), id);
    ValuesOfRows(id, pillarIds, id);
    ValuesOfRemove(c.upLovePillars, id, id);
    ValuesOfAppend(Remove(c.upLoveItems, id), Rows(id, items), id);
    ValuesOfRows(id, items, id);
    ValuesOfRemove(c.upLoveItems, id, id);
    assert [] + pillarIds == pillarIds;
    assert [] + items == items;
    ReadsBackAs(d, id, Lookup(c.upLoves, id).value, pillarIds, toImprove, toPraise);
  }

  /** `deleteUpLove`: the UpLove is no longer found and every other one reads as before. */
  lemma RemoveUpLove(c: DbContents, id: Id)
    requires Intact(c)
    ensures Intact(WithoutUpLove(c, id))
    ensures UpLoveView(WithoutUpLove(c, id), id) == Success(None)
    ensures forall u :: u != id ==> UpLoveView(WithoutUpLove(c, id), u) == UpLoveView(c, u)
  {
    var d := WithoutUpLove(c, id);
    forall u ensures Lookup(d.upLoves, u) == if u == id then None else Lookup(c.upLoves, u) {
      LookupRemove(c.upLoves, id, u);
    }
    forall u ensures ValuesOf(d.upLovePillars, u) == if u == id then [] else ValuesOf(c.upLovePillars, u) {
      ValuesOfRemove(c.upLovePillars, id, u);
    }
    forall u ensures ValuesOf(d.upLoveItems, u) == if u == id then [] else ValuesOf(c.upLoveItems, u) {
      ValuesOfRemove(c.upLoveItems, id, u);
    }
  }
}
