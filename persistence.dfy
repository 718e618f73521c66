/** The persistent state the services work on: the four JPA tables and the Redis
    lock table. A row's id is its position in its table (identity keys are handed out
    in insertion order and rows are never deleted). */
module Persistence {
  import opened Entities
  import opened RedisLock

  /** Referential integrity and the column constraints the services rely on: every
      user package refers to a catalogue package, every booking to an existing class
      and user package, and every class has a positive capacity and credit price. */
  predicate WellFormed(catalogue: seq<Package>, ups: seq<UserPackage>, scs: seq<ClassSchedule>, bs: seq<ClassBooking>) {
    (forall i :: 0 <= i < |ups| ==> ups[i].packageId < |catalogue|)
    && (forall i :: 0 <= i < |scs| ==> scs[i].maxCapacity > 0 && scs[i].requiredCredits > 0)
    && (forall i :: 0 <= i < |bs| ==> bs[i].schedule < |scs| && bs[i].userPackage < |ups|)
  }

  /** Every balance satisfies the declared constraint remainingCredits >= 0. */
  predicate AllCreditsInRange(ups: seq<UserPackage>) {
    forall i :: 0 <= i < |ups| ==> CreditsInRange(ups[i])
  }

  class Store {
    var catalogue: seq<Package>
    var userPackages: seq<UserPackage>
    var schedules: seq<ClassSchedule>
    var bookings: seq<ClassBooking>
    var locks: LockTable

    ghost predicate Valid()
      reads this
    {
      WellFormed(catalogue, userPackages, schedules, bookings)
    }

    /** An empty database with no lock held. */
    constructor ()
      ensures Valid()
      ensures catalogue == [] && userPackages == [] && schedules == [] && bookings == [] && locks == map[]
    {
      catalogue := [];
      userPackages := [];
      schedules := [];
      bookings := [];
      locks := map[];
    }
  }
}
