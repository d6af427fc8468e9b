/**
 * The values the service hands back (src/entities/Person/Person.tsx,
 * src/entities/Person/Necessity.tsx, src/entities/UpLove/UpLove.tsx and the
 * commitment classes): plain getter/setter holders, modelled as records.
 */
module Entities {
  import opened Priorities

  /** Row identifiers: the service generates them as UUID strings. */
  type Id = string

  /** A JavaScript `Date`: either invalid (its time is NaN) or an epoch time in milliseconds with its calendar year. */
  datatype Date = InvalidDate | Date(time: int, year: int)

  datatype Necessity = Necessity(id: Id, name: string, description: string)

  datatype Person = Person(id: Id, name: string, necessities: seq<Necessity>)

  /** A `Todo` or a `ToKeep`: both carry the same three fields. */
  datatype Commitment = Commitment(id: Id, description: string, isDone: bool)

  /** The getter values of a `Pillar` the service builds from a row. */
  datatype PillarData = PillarData(id: Id, name: string, priority: Priority, satisfaction: int)

  datatype UpLove = UpLove(id: Id, date: Date, pillars: seq<PillarData>, toImprove: seq<string>, toPraise: seq<string>)
}
