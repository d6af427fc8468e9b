/** The `Pillar` entity (src/entities/Relationship/Pillar.tsx): a class whose setters update its fields in place. */
module PillarEntity {
  import opened Wrappers
  import opened Priorities

  const RangeMessage := "A Pillar cannot have a score outside range [1-10]"

  /** The range the constructor enforces. */
  predicate InRange(satisfaction: int) {
    1 <= satisfaction <= 10
  }

  /** The satisfaction setter's guard, exactly as written: it can never hold. */
  predicate SetterGuardAsWritten(value: int) {
    value <= 0 && value >= 10
  }

  /** No number is both at most 0 and at least 10, so the setter never throws. */
  lemma SetterGuardNeverHolds(value: int)
    ensures !SetterGuardAsWritten(value)
  {
  }

  /** The discrepancy: 0 is outside the constructor's range, yet the setter's guard lets it through. */
  lemma SetterAdmitsZero()
    ensures !InRange(0) && !SetterGuardAsWritten(0)
  {
  }

  class Pillar {
    const id: string
    var name: string
    var priority: Priority
    var satisfaction: int

    /** The constructor body once the range check has passed; `Create` performs that check. */
    constructor Init(id: string, name: string, priority: Priority, satisfaction: int)
      requires InRange(satisfaction)
      ensures this.id == id && this.name == name && this.priority == priority && this.satisfaction == satisfaction
    {
      this.id := id;
      this.name := name;
      this.priority := priority;
      this.satisfaction := satisfaction;
    }

    /** `new Pillar(...)`: throws outside [1,10]; otherwise the getters return exactly the arguments. */
    static method Create(id: string, name: string, priority: Priority, satisfaction: int) returns (r: Result<Pillar, string>)
      ensures r.Failure? <==> !InRange(satisfaction)
      ensures r.Failure? ==> r.error == RangeMessage
      ensures r.Success? ==> fresh(r.value) && r.value.Valid()
      ensures r.Success? ==>
        r.value.id == id && r.value.name == name && r.value.priority == priority && r.value.satisfaction == satisfaction
    {
      if satisfaction < 1 || satisfaction > 10 {
        return Failure(RangeMessage);
      }
      var p := new Pillar.Init(id, name, priority, satisfaction);
      return Success(p);
    }

    /** The invariant the constructor establishes. */
    predicate Valid()
      reads this
    {
      InRange(satisfaction)
    }

    /** `set name`: changes the name only. */
    method SetName(value: string)
      modifies this`name
      ensures name == value
    {
      name := value;
    }

    /** `set priority`: changes the priority only. */
    method SetPriority(value: Priority)
      modifies this`priority
      ensures priority == value
    {
      priority := value;
    }

    /** `set satisfaction` as written: its guard never fires, so every value is stored and `Valid()` can be lost. */
    method SetSatisfaction(value: int) returns (r: Result<(), string>)
      modifies this`satisfaction
      ensures r.Success?
      ensures satisfaction == value
      ensures Valid() <==> InRange(value)
    {
      if SetterGuardAsWritten(value) {
        return Failure(RangeMessage);
      }
      satisfaction := value;
      return Success(());
    }

    /** The setter with the guard the message describes: it rejects exactly the values outside [1,10], so `Valid()` is kept. */
    method SetSatisfactionChecked(value: int) returns (r: Result<(), string>)
      requires Valid()
      modifies this`satisfaction
      ensures Valid()
      ensures r.Success? <==> InRange(value)
      ensures r.Failure? ==> r.error == RangeMessage && satisfaction == old(satisfaction)
      ensures r.Success? ==> satisfaction == value
    {
      if value < 1 || value > 10 {
        return Failure(RangeMessage);
      }
      satisfaction := value;
      return Success(());
    }
  }
}
