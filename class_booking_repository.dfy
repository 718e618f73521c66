/** The booking queries (com.app.booking.repository.ClassBookingRepository) as pure
    filters over the bookings table. Queries that join a booking to its class read
    the schedules table. */
module ClassBookingRepository {
  import opened Wrappers
  import opened Queries
  import opened Entities

  /** The filter "this schedule, this status". */
  function OfScheduleWithStatus(s: ScheduleId, st: BookingStatus): ClassBooking -> bool {
    (b: ClassBooking) => b.schedule == s && b.status == st
  }

  /** The ORDER BY waitlistPosition key. A row without a position is ordered as
      position 0, ahead of every position the services hand out (they start at 1),
      as MySQL and H2 put NULL first in ascending order. */
  function PositionKey(b: ClassBooking): int {
    match b.waitlistPosition
    case None => 0
    case Some(p) => p
  }

  function ByPosition(bs: seq<ClassBooking>): nat -> int {
    (i: nat) => if i < |bs| then PositionKey(bs[i]) else 0
  }

  /** A WAITLISTED booking of schedule `s` that holds position `p`. */
  predicate HoldsPosition(b: ClassBooking, s: ScheduleId, p: int) {
    b.schedule == s && b.status == BookingStatus.Waitlisted && b.waitlistPosition == Some(p)
  }

  /** findByUserAndStatus */
  function FindByUserAndStatus(bs: seq<ClassBooking>, user: UserId, st: BookingStatus): (r: seq<BookingId>)
    ensures forall i: int :: i in r <==> 0 <= i < |bs| && bs[i].user == user && bs[i].status == st
    ensures Increasing(r)
  {
    Select(bs, (b: ClassBooking) => b.user == user && b.status == st)
  }

  /** findByUserAndStatusIn */
  function FindByUserAndStatusIn(bs: seq<ClassBooking>, user: UserId, sts: set<BookingStatus>): (r: seq<BookingId>)
    ensures forall i: int :: i in r <==> 0 <= i < |bs| && bs[i].user == user && bs[i].status in sts
    ensures Increasing(r)
  {
    Select(bs, (b: ClassBooking) => b.user == user && b.status in sts)
  }

  /** findByClassScheduleAndStatus */
  function FindByClassScheduleAndStatus(bs: seq<ClassBooking>, s: ScheduleId, st: BookingStatus): (r: seq<BookingId>)
    ensures forall i: int :: i in r <==> 0 <= i < |bs| && bs[i].schedule == s && bs[i].status == st
    ensures Increasing(r)
  {
    Select(bs, OfScheduleWithStatus(s, st))
  }

  /** countByClassScheduleAndStatus: COUNT over the rows of the schedule with the
      status; it agrees with the length of the corresponding list query. */
  function CountByClassScheduleAndStatus(bs: seq<ClassBooking>, s: ScheduleId, st: BookingStatus): (n: nat)
    ensures n == |FindByClassScheduleAndStatus(bs, s, st)|
  {
    SelectCount(bs, OfScheduleWithStatus(s, st));
    |Rows(bs, OfScheduleWithStatus(s, st))|
  }

  /** findFirstByClassScheduleAndStatusOrderByWaitlistPositionAsc: a matching row
      with the least position, or none when no row matches. */
  function FindFirstByClassScheduleAndStatusOrderByWaitlistPositionAsc(
    bs: seq<ClassBooking>, s: ScheduleId, st: BookingStatus): (r: Option<BookingId>)
    ensures r.None? <==> forall i :: 0 <= i < |bs| ==> !(bs[i].schedule == s && bs[i].status == st)
    ensures r.Some? ==> r.value < |bs| && bs[r.value].schedule == s && bs[r.value].status == st
    ensures r.Some? ==> forall i :: 0 <= i < |bs| && bs[i].schedule == s && bs[i].status == st ==>
      PositionKey(bs[r.value]) <= PositionKey(bs[i])
  {
    var matching := Select(bs, OfScheduleWithStatus(s, st));
    var sorted := SortBy(matching, ByPosition(bs));
    if |sorted| == 0 then
      assert |matching| == 0;
      None
    else
      assert sorted[0] in matching;
      assert forall i :: 0 <= i < |bs| && bs[i].schedule == s && bs[i].status == st ==>
        PositionKey(bs[sorted[0]]) <= PositionKey(bs[i]) by {
        forall i | 0 <= i < |bs| && bs[i].schedule == s && bs[i].status == st
          ensures PositionKey(bs[sorted[0]]) <= PositionKey(bs[i])
        {
          assert i in matching;
          assert i in sorted;
          var b :| 0 <= b < |sorted| && sorted[b] == i;
          assert b == 0 || ByPosition(bs)(sorted[0]) <= ByPosition(bs)(sorted[b]);
        }
      }
      Some(sorted[0])
  }

  /** findMaxWaitlistPositionByClassSchedule: SQL MAX over the positions of the
      schedule's WAITLISTED rows; MAX skips NULLs and yields nothing when no
      position is left. */
  function FindMaxWaitlistPositionByClassSchedule(bs: seq<ClassBooking>, s: ScheduleId): (r: Option<int>)
    ensures r.None? <==> forall i, p :: 0 <= i < |bs| ==> !HoldsPosition(bs[i], s, p)
    ensures r.Some? ==> exists i :: 0 <= i < |bs| && HoldsPosition(bs[i], s, r.value)
    ensures r.Some? ==> forall i, p :: 0 <= i < |bs| && HoldsPosition(bs[i], s, p) ==> p <= r.value
    decreases |bs|
  {
    if |bs| == 0 then None
    else
      var n := |bs| - 1;
      var rest := FindMaxWaitlistPositionByClassSchedule(bs[..n], s);
      assert forall i :: 0 <= i < n ==> bs[..n][i] == bs[i];
      var b := bs[n];
      if b.schedule == s && b.status == BookingStatus.Waitlisted && b.waitlistPosition.Some? then
        assert HoldsPosition(bs[n], s, b.waitlistPosition.value);
        match rest
        case None => b.waitlistPosition
        case Some(m) =>
          if m < b.waitlistPosition.value then b.waitlistPosition else rest
      else
        rest
  }

  /** findByClassScheduleAndStatusAndWaitlistPositionGreaterThanOrderByWaitlistPositionAsc:
      the matching rows whose position is strictly greater (a NULL position never
      compares greater), in ascending position order. */
  function FindByClassScheduleAndStatusAndWaitlistPositionGreaterThanOrderByWaitlistPositionAsc(
    bs: seq<ClassBooking>, s: ScheduleId, st: BookingStatus, position: int): (r: seq<BookingId>)
    ensures forall i: int :: i in r <==> (0 <= i < |bs| && bs[i].schedule == s && bs[i].status == st
      && bs[i].waitlistPosition.Some? && bs[i].waitlistPosition.value > position)
    ensures Distinct(r)
    ensures forall a :: 0 <= a < |r| ==> r[a] < |bs|
    ensures forall a, b :: 0 <= a < b < |r| ==> PositionKey(bs[r[a]]) <= PositionKey(bs[r[b]])
  {
    var matching := Select(bs, (b: ClassBooking) => b.schedule == s && b.status == st
      && b.waitlistPosition.Some? && b.waitlistPosition.value > position);
    IncreasingIsDistinct(matching);
    SortByKeepsDistinct(matching, ByPosition(bs));
    var sorted := SortBy(matching, ByPosition(bs));
    assert forall a :: 0 <= a < |sorted| ==> sorted[a] < |bs| by {
      forall a | 0 <= a < |sorted| ensures sorted[a] < |bs| {
        assert sorted[a] in matching;
      }
    }
    sorted
  }

  /** findConflictingBookings: the member's BOOKED or CHECKED_IN bookings whose class
      starts before `endTime` and ends after `startTime`. */
  function FindConflictingBookings(bs: seq<ClassBooking>, scs: seq<ClassSchedule>, user: UserId,
                                   startTime: Time, endTime: Time): (r: seq<BookingId>)
    ensures forall i: int :: i in r <==> (0 <= i < |bs| && bs[i].user == user
      && (bs[i].status == BookingStatus.Booked || bs[i].status == BookingStatus.CheckedIn)
      && bs[i].schedule < |scs|
      && scs[bs[i].schedule].startTime < endTime && scs[bs[i].schedule].endTime > startTime)
    ensures Increasing(r)
  {
    Select(bs, (b: ClassBooking) => b.user == user
      && (b.status == BookingStatus.Booked || b.status == BookingStatus.CheckedIn)
      && b.schedule < |scs|
      && scs[b.schedule].startTime < endTime && scs[b.schedule].endTime > startTime)
  }

  /** findFutureBookingsByUserPackage: bookings drawn on the package whose class
      starts strictly after `now` and that are still BOOKED or WAITLISTED. */
  function FindFutureBookingsByUserPackage(bs: seq<ClassBooking>, scs: seq<ClassSchedule>,
                                           up: UserPackageId, now: Time): (r: seq<BookingId>)
    ensures forall i: int :: i in r <==> (0 <= i < |bs| && bs[i].userPackage == up
      && bs[i].schedule < |scs| && scs[bs[i].schedule].startTime > now
      && (bs[i].status == BookingStatus.Booked || bs[i].status == BookingStatus.Waitlisted))
    ensures Increasing(r)
  {
    Select(bs, (b: ClassBooking) => b.userPackage == up
      && b.schedule < |scs| && scs[b.schedule].startTime > now
      && (b.status == BookingStatus.Booked || b.status == BookingStatus.Waitlisted))
  }

  /** findOldBookingsByStatusAndDate: bookings with the status whose class ended
      strictly before the cutoff. */
  function FindOldBookingsByStatusAndDate(bs: seq<ClassBooking>, scs: seq<ClassSchedule>,
                                          st: BookingStatus, cutoff: Time): (r: seq<BookingId>)
    ensures forall i: int :: i in r <==> (0 <= i < |bs| && bs[i].status == st
      && bs[i].schedule < |scs| && scs[bs[i].schedule].endTime < cutoff)
    ensures Increasing(r)
  {
    Select(bs, (b: ClassBooking) => b.status == st
      && b.schedule < |scs| && scs[b.schedule].endTime < cutoff)
  }
}
