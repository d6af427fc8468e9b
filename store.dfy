/**
 * The database the service reads and writes, as one value: the rows of the eight
 * tables of the schema, the views the service's read operations build from them,
 * the referential integrity the schema's foreign keys maintain, and the
 * dependency order in which `clearAllData` empties the tables.
 */
module Store {
  import opened Wrappers
  import opened Errors
  import opened Priorities
  import opened Entities
  import opened Tables

  /** The discriminator of the shared `commitments` table. */
  datatype Tag = Todo | ToKeep

  /** The discriminator of `up_love_items`. */
  datatype ItemKind = ToImprove | ToPraise

  datatype NecessityRow = NecessityRow(personId: Id, name: string, description: string)

  /** `is_done` is stored as the integer 1 or 0. */
  datatype CommitmentRow = CommitmentRow(tag: Tag, description: string, isDone: int)

  datatype PillarRow = PillarRow(name: string, priority: Priority, satisfaction: int)

  /** The contents of the database file: `relationship_metadata` (a single optional row with id 1) and seven tables. */
  datatype DbContents = DbContents(
    metadata: Option<string>,
    persons: Table<Id, string>,
    necessities: Table<Id, NecessityRow>,
    commitments: Table<Id, CommitmentRow>,
    pillars: Table<Id, PillarRow>,
    upLoves: Table<Id, Date>,
    upLovePillars: Table<Id, Id>,
    upLoveItems: Table<Id, (ItemKind, string)>)

  /** The name a missing commitment is reported under. */
  function TagResource(tag: Tag): string {
    match tag
    case Todo => "Todo"
    case ToKeep => "ToKeep"
  }

  /** The first `n` rows, as `LIMIT n` returns them. */
  function Take<T>(rows: seq<T>, n: nat): (r: seq<T>)
    ensures |r| == if |rows| < n then |rows| else n
    ensures r == rows[..|r|]
  {
    if |rows| < n then rows else rows[..n]
  }

  // ---------------------------------------------------------------------------
  // Integrity
  // ---------------------------------------------------------------------------

  /**
   * What the schema and the service together keep true: primary keys, the foreign
   * keys of `necessities` and of the two association tables toward `up_loves`,
   * satisfaction in [1,10] and `is_done` in {0,1}. `up_love_pillars.pillar_id` is
   * deliberately absent: `deletePillar` can leave it dangling.
   */
  ghost predicate Intact(c: DbContents) {
    && UniqueKeys(c.persons)
    && UniqueKeys(c.necessities)
    && UniqueKeys(c.commitments)
    && UniqueKeys(c.pillars)
    && UniqueKeys(c.upLoves)
    && (forall i :: 0 <= i < |c.necessities| ==> c.necessities[i].1.personId in Keys(c.persons))
    && Keys(c.upLovePillars) <= Keys(c.upLoves)
    && Keys(c.upLoveItems) <= Keys(c.upLoves)
    && (forall i :: 0 <= i < |c.pillars| ==> 1 <= c.pillars[i].1.satisfaction <= 10)
    && (forall i :: 0 <= i < |c.commitments| ==> c.commitments[i].1.isDone == 0 || c.commitments[i].1.isDone == 1)
  }

  // ---------------------------------------------------------------------------
  // Persons and necessities
  // ---------------------------------------------------------------------------

  function NecessityOf(id: Id, row: NecessityRow): Necessity {
    Necessity(id, row.name, row.description)
  }

  /** `getNecessitiesByPerson`: the necessities whose `person_id` is `personId`, in row order. */
  function OwnedBy(rows: Table<Id, NecessityRow>, personId: Id): (r: seq<Necessity>)
    ensures |r| <= |rows|
    ensures (forall i :: 0 <= i < |rows| ==> rows[i].1.personId != personId) ==> r == []
  {
    if rows == [] then []
    else
      var rest := OwnedBy(rows[1..], personId);
      assert forall i :: 0 <= i < |rows[1..]| ==> rows[1..][i] == rows[i + 1];
      (if rows[0].1.personId == personId then [NecessityOf(rows[0].0, rows[0].1)] else []) + rest
  }

  /** Reading one owner's necessities distributes over concatenated row sequences. */
  lemma {:induction false} OwnedByConcat(a: Table<Id, NecessityRow>, b: Table<Id, NecessityRow>, personId: Id)
    ensures OwnedBy(a + b, personId) == OwnedBy(a, personId) + OwnedBy(b, personId)
  {
    if a == [] {
      assert a + b == b;
    } else {
      assert (a + b)[0] == a[0];
      assert (a + b)[1..] == a[1..] + b;
      OwnedByConcat(a[1..], b, personId);
      var h: seq<Necessity> := if a[0].1.personId == personId then [NecessityOf(a[0].0, a[0].1)] else [];
      assert OwnedBy(a + b, personId) == h + (OwnedBy(a[1..], personId) + OwnedBy(b, personId));
      assert h + (OwnedBy(a[1..], personId) + OwnedBy(b, personId)) == (h + OwnedBy(a[1..], personId)) + OwnedBy(b, personId);
    }
  }

  /** Appending one necessity row extends only its owner's list, at the end. */
  lemma OwnedBySnoc(rows: Table<Id, NecessityRow>, row: (Id, NecessityRow), personId: Id)
    ensures OwnedBy(rows + [row], personId) ==
      OwnedBy(rows, personId) + if row.1.personId == personId then [NecessityOf(row.0, row.1)] else []
  {
    OwnedByConcat(rows, [row], personId);
    assert [row][1..] == [];
  }

  /** `... WHERE person_id IN (ids)`: the necessity rows owned by any of `ids`, in row order. */
  function OwnedByAny(rows: Table<Id, NecessityRow>, ids: set<Id>): (r: Table<Id, NecessityRow>)
    ensures |r| <= |rows|
    ensures forall i :: 0 <= i < |r| ==> r[i].1.personId in ids
  {
    if rows == [] then []
    else (if rows[0].1.personId in ids then [rows[0]] else []) + OwnedByAny(rows[1..], ids)
  }

  /** Narrowing the rows to a set of owners first loses nothing for an owner in the set. */
  lemma {:induction false} OwnedByAnyKeepsOwner(rows: Table<Id, NecessityRow>, ids: set<Id>, personId: Id)
    requires personId in ids
    ensures OwnedBy(OwnedByAny(rows, ids), personId) == OwnedBy(rows, personId)
  {
    if rows != [] {
      OwnedByAnyKeepsOwner(rows[1..], ids, personId);
      var head: Table<Id, NecessityRow> := if rows[0].1.personId in ids then [rows[0]] else [];
      OwnedByConcat(head, OwnedByAny(rows[1..], ids), personId);
      if rows[0].1.personId in ids {
        assert OwnedBy(head, personId) == OwnedBy([rows[0]], personId);
        assert [rows[0]][1..] == [];
      }
    }
  }

  /** The necessity rows whose owner is not `personId`: the cascade of deleting that person. */
  function DropOwnedBy(rows: Table<Id, NecessityRow>, personId: Id): (r: Table<Id, NecessityRow>)
    ensures forall i :: 0 <= i < |r| ==> r[i] in rows && r[i].1.personId != personId
    ensures Keys(r) <= Keys(rows)
    ensures UniqueKeys(rows) ==> UniqueKeys(r)
  {
    if rows == [] then []
    else
      var rest := DropOwnedBy(rows[1..], personId);
      KeysCons(rows);
      if rows[0].1.personId == personId then rest
      else
        var r := [rows[0]] + rest;
        KeysCons(r);
        assert r[1..] == rest;
        assert UniqueKeys(rows) ==> rows[0].0 !in Keys(rows[1..]);
        r
  }

  /** The cascade leaves every other owner's necessities as they were. */
  lemma {:induction false} OwnedByDrop(rows: Table<Id, NecessityRow>, personId: Id, other: Id)
    requires other != personId
    ensures OwnedBy(DropOwnedBy(rows, personId), other) == OwnedBy(rows, other)
  {
    if rows != [] {
      OwnedByDrop(rows[1..], personId, other);
      if rows[0].1.personId != personId {
        assert ([rows[0]] + DropOwnedBy(rows[1..], personId))[1..] == DropOwnedBy(rows[1..], personId);
      }
    }
  }

  /** After the cascade a necessity is found exactly when it was found before and belonged to someone else. */
  lemma {:induction false} LookupDrop(rows: Table<Id, NecessityRow>, personId: Id, id: Id)
    requires UniqueKeys(rows)
    ensures Lookup(DropOwnedBy(rows, personId), id) ==
      if Lookup(rows, id).Some? && Lookup(rows, id).value.personId != personId then Lookup(rows, id) else None
  {
    if rows != [] {
      KeysCons(rows);
      assert UniqueKeys(rows[1..]);
      LookupDrop(rows[1..], personId, id);
      var rest := DropOwnedBy(rows[1..], personId);
      if rows[0].1.personId != personId {
        assert ([rows[0]] + rest)[1..] == rest;
      } else if rows[0].0 == id {
        assert id !in Keys(rows[1..]);
      }
    }
  }

  function PersonView(c: DbContents, id: Id): Option<Person> {
    match Lookup(c.persons, id)
    case None => None
    case Some(name) => Some(Person(id, name, OwnedBy(c.necessities, id)))
  }

  function NecessityView(c: DbContents, id: Id): Option<Necessity> {
    match Lookup(c.necessities, id)
    case None => None
    case Some(row) => Some(NecessityOf(id, row))
  }

  // ---------------------------------------------------------------------------
  // Commitments
  // ---------------------------------------------------------------------------

  /** A row read back: `is_done === 1`. */
  function CommitmentOf(id: Id, row: CommitmentRow): Commitment {
    Commitment(id, row.description, row.isDone == 1)
  }

  /** `... WHERE id = ? AND type = ?` over the commitment rows: a row of the other tag is not found. */
  function TaggedLookup(rows: Table<Id, CommitmentRow>, id: Id, tag: Tag): Option<Commitment> {
    match Lookup(rows, id)
    case None => None
    case Some(row) => if row.tag == tag then Some(CommitmentOf(id, row)) else None
  }

  /** The number of rows a statement `WHERE id = ? AND type = ?` affects: a row of the other tag is not counted. */
  function TaggedCount(rows: Table<Id, CommitmentRow>, id: Id, tag: Tag): (n: nat)
    ensures UniqueKeys(rows) ==> (n > 0 <==> TaggedLookup(rows, id, tag).Some?)
    ensures UniqueKeys(rows) ==> n <= 1
  {
    if rows == [] then 0
    else
      var n := TaggedCount(rows[1..], id, tag);
      KeysCons(rows);
      assert UniqueKeys(rows) ==> UniqueKeys(rows[1..]) && (rows[0].0 == id ==> Lookup(rows[1..], id).None?);
      (if rows[0].0 == id && rows[0].1.tag == tag then 1 else 0) + n
  }

  function CommitmentView(c: DbContents, id: Id, tag: Tag): Option<Commitment> {
    TaggedLookup(c.commitments, id, tag)
  }

  /** `... WHERE type = ?`: the commitments of one tag, in row order. */
  function Tagged(rows: Table<Id, CommitmentRow>, tag: Tag): (r: seq<Commitment>)
    ensures |r| <= |rows|
  {
    if rows == [] then []
    else (if rows[0].1.tag == tag then [CommitmentOf(rows[0].0, rows[0].1)] else []) + Tagged(rows[1..], tag)
  }

  /** Under a primary key, every commitment listed for a tag is the one a lookup by its id and tag finds. */
  lemma {:induction false} TaggedAgreesWithLookup(rows: Table<Id, CommitmentRow>, tag: Tag)
    requires UniqueKeys(rows)
    ensures forall x :: x in Tagged(rows, tag) ==> TaggedLookup(rows, x.id, tag) == Some(x)
  {
    if rows != [] {
      KeysCons(rows);
      assert UniqueKeys(rows[1..]);
      TaggedAgreesWithLookup(rows[1..], tag);
      forall x | x in Tagged(rows, tag) ensures TaggedLookup(rows, x.id, tag) == Some(x) {
        if x !in Tagged(rows[1..], tag) {
          assert rows[0].1.tag == tag && x == CommitmentOf(rows[0].0, rows[0].1);
        } else {
          assert Lookup(rows[1..], x.id).Some?;
          assert x.id != rows[0].0;
        }
      }
    }
  }

  // ---------------------------------------------------------------------------
  // Pillars
  // ---------------------------------------------------------------------------

  function PillarOf(id: Id, row: PillarRow): PillarData {
    PillarData(id, row.name, row.priority, row.satisfaction)
  }

  function PillarView(c: DbContents, id: Id): Option<PillarData> {
    match Lookup(c.pillars, id)
    case None => None
    case Some(row) => Some(PillarOf(id, row))
  }

  /**
   * `getPillar` on every id in turn: the pillars in the order of `ids`, or the
   * first id that has no row. The source runs these lookups concurrently; the
   * model reports the first missing id in list order.
   */
  function ResolvePillars(t: Table<Id, PillarRow>, ids: seq<Id>): (r: Result<seq<PillarData>, Id>)
    ensures r.Success? <==> forall i :: 0 <= i < |ids| ==> ids[i] in Keys(t)
    ensures r.Success? ==> |r.value| == |ids|
    ensures r.Success? ==> forall i :: 0 <= i < |ids| ==> r.value[i] == PillarOf(ids[i], Lookup(t, ids[i]).value)
    ensures r.Failure? ==> r.error !in Keys(t)
    ensures r.Failure? ==> exists k :: 0 <= k < |ids| && ids[k] == r.error && forall j :: 0 <= j < k ==> ids[j] in Keys(t)
  {
    if ids == [] then Success([])
    else match Lookup(t, ids[0])
      case None => Failure(ids[0])
      case Some(row) =>
        match ResolvePillars(t, ids[1..])
        case Failure(missing) =>
          ghost var k :| 0 <= k < |ids[1..]| && ids[1..][k] == missing && forall j :: 0 <= j < k ==> ids[1..][j] in Keys(t);
          assert ids[k + 1] == missing;
          Failure(missing)
        case Success(rest) => Success([PillarOf(ids[0], row)] + rest)
  }

  // ---------------------------------------------------------------------------
  // UpLoves
  // ---------------------------------------------------------------------------

  /** `... AND item_type = ?`: the contents of one kind, in row order. */
  function OfKind(items: seq<(ItemKind, string)>, kind: ItemKind): (r: seq<string>)
    ensures |r| <= |items|
  {
    if items == [] then []
    else (if items[0].0 == kind then [items[0].1] else []) + OfKind(items[1..], kind)
  }

  /** Contents tagged with one kind, as the insertion loops write them. */
  function WithKind(kind: ItemKind, contents: seq<string>): (r: seq<(ItemKind, string)>)
    ensures |r| == |contents|
  {
    seq(|contents|, i requires 0 <= i < |contents| => (kind, contents[i]))
  }

  /** The item rows an UpLove write appends: the improvements, then the praises. */
  function ItemRows(id: Id, toImprove: seq<string>, toPraise: seq<string>): Table<Id, (ItemKind, string)> {
    Rows(id, WithKind(ToImprove, toImprove) + WithKind(ToPraise, toPraise))
  }

  lemma {:induction false} OfKindAppend(a: seq<(ItemKind, string)>, b: seq<(ItemKind, string)>, kind: ItemKind)
    ensures OfKind(a + b, kind) == OfKind(a, kind) + OfKind(b, kind)
  {
    if a == [] {
      assert a + b == b;
    } else {
      assert (a + b)[0] == a[0];
      assert (a + b)[1..] == a[1..] + b;
      OfKindAppend(a[1..], b, kind);
      var h: seq<string> := if a[0].0 == kind then [a[0].1] else [];
      assert OfKind(a + b, kind) == h + (OfKind(a[1..], kind) + OfKind(b, kind));
      assert h + (OfKind(a[1..], kind) + OfKind(b, kind)) == (h + OfKind(a[1..], kind)) + OfKind(b, kind);
    }
  }

  lemma {:induction false} OfKindWithKind(k: ItemKind, contents: seq<string>, kind: ItemKind)
    ensures OfKind(WithKind(k, contents), kind) == if k == kind then contents else []
  {
    if contents != [] {
      assert WithKind(k, contents)[1..] == WithKind(k, contents[1..]);
      OfKindWithKind(k, contents[1..], kind);
    }
  }

  /** Improvements and praises written together read back separately, each in its own order. */
  lemma ItemsReadBack(toImprove: seq<string>, toPraise: seq<string>)
    ensures OfKind(WithKind(ToImprove, toImprove) + WithKind(ToPraise, toPraise), ToImprove) == toImprove
    ensures OfKind(WithKind(ToImprove, toImprove) + WithKind(ToPraise, toPraise), ToPraise) == toPraise
  {
    OfKindAppend(WithKind(ToImprove, toImprove), WithKind(ToPraise, toPraise), ToImprove);
    OfKindAppend(WithKind(ToImprove, toImprove), WithKind(ToPraise, toPraise), ToPraise);
    OfKindWithKind(ToImprove, toImprove, ToImprove);
    OfKindWithKind(ToPraise, toPraise, ToImprove);
    OfKindWithKind(ToImprove, toImprove, ToPraise);
    OfKindWithKind(ToPraise, toPraise, ToPraise);
  }

  const IntegrityMessage := "Data integrity error occurred"

  /**
   * `getUpLove`: nothing when the row is absent; a dangling pillar reference is a
   * `DataIntegrityError`; otherwise the date, the pillars in association order and
   * the items of each kind in row order.
   */
  function UpLoveView(c: DbContents, id: Id): (r: Result<Option<UpLove>, DbError>)
    ensures r.Failure? ==> r.error == DataIntegrity(IntegrityMessage)
    ensures r.Success? ==> (r.value.Some? <==> id in Keys(c.upLoves))
  {
    match Lookup(c.upLoves, id)
    case None => Success(None)
    case Some(date) =>
      match ResolvePillars(c.pillars, ValuesOf(c.upLovePillars, id))
      case Failure(_) => Failure(DataIntegrity(IntegrityMessage))
      case Success(pillars) =>
        var items := ValuesOf(c.upLoveItems, id);
        Success(Some(UpLove(id, date, pillars, OfKind(items, ToImprove), OfKind(items, ToPraise))))
  }

  /**
   * `Promise.all` over `getUpLove` results: every UpLove when each was read, and the
   * integrity error otherwise (an absent row is one too).
   */
  function Collect(views: seq<Result<Option<UpLove>, DbError>>): (r: Result<seq<UpLove>, DbError>)
    requires forall i :: 0 <= i < |views| && views[i].Failure? ==> views[i].error == DataIntegrity(IntegrityMessage)
    ensures r.Success? <==> forall i :: 0 <= i < |views| ==> views[i].Success? && views[i].value.Some?
    ensures r.Success? ==> |r.value| == |views|
    ensures r.Success? ==> forall i :: 0 <= i < |views| ==> views[i] == Success(Some(r.value[i]))
    ensures r.Failure? ==> r.error == DataIntegrity(IntegrityMessage)
    ensures (forall i :: 0 <= i < |views| && views[i].Success? ==> views[i].value.Some?) ==>
      (r.Success? <==> forall i :: 0 <= i < |views| ==> views[i].Success?)
  {
    if views == [] then Success([])
    else
      assert forall i :: 0 <= i < |views[1..]| ==> views[1..][i] == views[i + 1];
      match views[0]
      case Failure(e) => Failure(e)
      case Success(None) => Failure(DataIntegrity(IntegrityMessage))
      case Success(Some(u)) =>
        match Collect(views[1..])
        case Failure(e) => Failure(e)
        case Success(rest) => Success([u] + rest)
  }

  /** `getAllUpLoves` over the given rows: each through `getUpLove`. */
  function UpLovesFrom(c: DbContents, rows: Table<Id, Date>): (r: Result<seq<UpLove>, DbError>)
    requires forall i :: 0 <= i < |rows| ==> rows[i].0 in Keys(c.upLoves)
    ensures r.Success? <==> forall i :: 0 <= i < |rows| ==> UpLoveView(c, rows[i].0).Success?
    ensures r.Success? ==> |r.value| == |rows|
    ensures r.Success? ==> forall i :: 0 <= i < |rows| ==> UpLoveView(c, rows[i].0) == Success(Some(r.value[i]))
    ensures r.Failure? ==> r.error == DataIntegrity(IntegrityMessage)
  {
    var views := seq(|rows|, i requires 0 <= i < |rows| => UpLoveView(c, rows[i].0));
    assert forall i :: 0 <= i < |rows| ==> views[i] == UpLoveView(c, rows[i].0);
    assert forall i :: 0 <= i < |views| && views[i].Success? ==> views[i].value.Some?;
    Collect(views)
  }

  // ---------------------------------------------------------------------------
  // Clearing every table
  // ---------------------------------------------------------------------------

  datatype TableName =
    | RelationshipMetadata | UpLoveItems | UpLovePillars | UpLoves | Pillars | Commitments | Necessities | Persons

  /** The order in which `clearAllData` deletes. */
  const ClearOrder: seq<TableName> :=
    [RelationshipMetadata, UpLoveItems, UpLovePillars, UpLoves, Pillars, Commitments, Necessities, Persons]

  /**
   * The tables whose rows `DELETE FROM n` also removes, under the foreign-key
   * actions assumed for the schema: a person's necessities and an UpLove's
   * association and item rows go with it. `up_love_pillars.pillar_id` declares
   * no foreign key, so deleting pillars removes nothing else.
   */
  function CascadesTo(n: TableName): set<TableName> {
    match n
    case UpLoves => {UpLovePillars, UpLoveItems}
    case Persons => {Necessities}
    case _ => {}
  }

  predicate IsEmpty(c: DbContents, n: TableName) {
    match n
    case RelationshipMetadata => c.metadata.None?
    case UpLoveItems => c.upLoveItems == []
    case UpLovePillars => c.upLovePillars == []
    case UpLoves => c.upLoves == []
    case Pillars => c.pillars == []
    case Commitments => c.commitments == []
    case Necessities => c.necessities == []
    case Persons => c.persons == []
  }

  /** Every table without rows: what `clearAllData` leaves. */
  const Cleared := DbContents(None, [], [], [], [], [], [], [])

  /** `n` without rows, every other table as it was. */
  function EmptyTable(c: DbContents, n: TableName): (r: DbContents)
    ensures forall m :: IsEmpty(r, m) <==> m == n || IsEmpty(c, m)
  {
    match n
    case RelationshipMetadata => c.(metadata := None)
    case UpLoveItems => c.(upLoveItems := [])
    case UpLovePillars => c.(upLovePillars := [])
    case UpLoves => c.(upLoves := [])
    case Pillars => c.(pillars := [])
    case Commitments => c.(commitments := [])
    case Necessities => c.(necessities := [])
    case Persons => c.(persons := [])
  }

  /** `DELETE FROM n`: `n` and the tables it cascades to lose every row; the others are as they were. */
  function DeleteAll(c: DbContents, n: TableName): (r: DbContents)
    ensures forall m :: IsEmpty(r, m) <==> m == n || m in CascadesTo(n) || IsEmpty(c, m)
  {
    match n
    case Persons => c.(persons := [], necessities := [])
    case UpLoves => c.(upLoves := [], upLovePillars := [], upLoveItems := [])
    case _ => EmptyTable(c, n)
  }

  /** A whole-table delete keeps the schema's constraints. */
  lemma DeleteAllKeepsIntact(c: DbContents, n: TableName)
    requires Intact(c)
    ensures Intact(DeleteAll(c, n))
  {
  }

  /** The cascade of a whole-table delete touches nothing once the tables it reaches are empty. */
  lemma CascadeIdleOnceChildrenEmpty(c: DbContents, n: TableName)
    requires forall m :: m in CascadesTo(n) ==> IsEmpty(c, m)
    ensures DeleteAll(c, n) == EmptyTable(c, n)
  {
    match n
    case Persons => assert Necessities in CascadesTo(Persons);
    case UpLoves => assert UpLovePillars in CascadesTo(UpLoves) && UpLoveItems in CascadesTo(UpLoves);
    case _ =>
  }

  /** Every table is deleted after each table its delete cascades to, and every table is deleted. */
  lemma ClearOrderChildrenFirst()
    ensures forall i, m :: 0 <= i < |ClearOrder| && m in CascadesTo(ClearOrder[i]) ==> m in ClearOrder[..i]
    ensures forall n :: n in ClearOrder
  {
    assert ClearOrder[..7] == [RelationshipMetadata, UpLoveItems, UpLovePillars, UpLoves, Pillars, Commitments, Necessities];
    forall i, m | 0 <= i < |ClearOrder| && m in CascadesTo(ClearOrder[i]) ensures m in ClearOrder[..i] {
      if i == 3 {
        assert ClearOrder[..i] == [RelationshipMetadata, UpLoveItems, UpLovePillars];
      } else {
        assert i == 7;
      }
    }
    forall n ensures n in ClearOrder {
      match n
      case RelationshipMetadata => assert ClearOrder[0] == n;
      case UpLoveItems => assert ClearOrder[1] == n;
      case UpLovePillars => assert ClearOrder[2] == n;
      case UpLoves => assert ClearOrder[3] == n;
      case Pillars => assert ClearOrder[4] == n;
      case Commitments => assert ClearOrder[5] == n;
      case Necessities => assert ClearOrder[6] == n;
      case Persons => assert ClearOrder[7] == n;
    }
  }

  /** A database all of whose tables are empty is `Cleared`. */
  lemma AllEmptyIsCleared(c: DbContents)
    requires forall n :: IsEmpty(c, n)
    ensures c == Cleared
  {
    assert IsEmpty(c, RelationshipMetadata) && IsEmpty(c, UpLoveItems) && IsEmpty(c, UpLovePillars) && IsEmpty(c, UpLoves);
    assert IsEmpty(c, Pillars) && IsEmpty(c, Commitments) && IsEmpty(c, Necessities) && IsEmpty(c, Persons);
  }
}
