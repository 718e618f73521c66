/** The class-timetable queries (com.app.booking.repository.ClassScheduleRepository)
    as pure filters over the schedules table. */
module ClassScheduleRepository {
  import opened Queries
  import opened Entities
  import ClassBookingRepository

  /** The ORDER BY startTime key. */
  function ByStart(scs: seq<ClassSchedule>): nat -> int {
    (i: nat) => if i < |scs| then scs[i].startTime else 0
  }

  /** Selects with `p` and orders by start time. */
  function SelectByStart(scs: seq<ClassSchedule>, p: ClassSchedule -> bool): (r: seq<ScheduleId>)
    ensures forall i: int :: i in r <==> (0 <= i < |scs| && p(scs[i]))
    ensures Distinct(r)
    ensures forall a :: 0 <= a < |r| ==> r[a] < |scs|
    ensures SortedBy(r, ByStart(scs))
  {
    var matching := Select(scs, p);
    IncreasingIsDistinct(matching);
    SortByKeepsDistinct(matching, ByStart(scs));
    var sorted := SortBy(matching, ByStart(scs));
    assert forall a :: 0 <= a < |sorted| ==> sorted[a] < |scs| by {
      forall a | 0 <= a < |sorted| ensures sorted[a] < |scs| {
        assert sorted[a] in matching;
      }
    }
    sorted
  }

  /** findByCountryAndStatusOrderByStartTime */
  function FindByCountryAndStatusOrderByStartTime(scs: seq<ClassSchedule>, country: string, st: ClassStatus): (r: seq<ScheduleId>)
    ensures forall i: int :: i in r <==> (0 <= i < |scs| && scs[i].country == country && scs[i].status == st)
    ensures Distinct(r)
    ensures SortedBy(r, ByStart(scs))
  {
    SelectByStart(scs, (c: ClassSchedule) => c.country == country && c.status == st)
  }

  /** findByStatusAndEndTimeBefore: strictly before. */
  function FindByStatusAndEndTimeBefore(scs: seq<ClassSchedule>, st: ClassStatus, endTime: Time): (r: seq<ScheduleId>)
    ensures forall i: int :: i in r <==> (0 <= i < |scs| && scs[i].status == st && scs[i].endTime < endTime)
    ensures Increasing(r)
  {
    Select(scs, (c: ClassSchedule) => c.status == st && c.endTime < endTime)
  }

  /** findByStatusAndStartTimeBetween: BETWEEN includes both ends. */
  function FindByStatusAndStartTimeBetween(scs: seq<ClassSchedule>, st: ClassStatus, startTime: Time, endTime: Time): (r: seq<ScheduleId>)
    ensures forall i: int :: i in r <==> (0 <= i < |scs| && scs[i].status == st
      && startTime <= scs[i].startTime <= endTime)
    ensures Increasing(r)
  {
    Select(scs, (c: ClassSchedule) => c.status == st && startTime <= c.startTime <= endTime)
  }

  /** findClassesWithHighWaitlist: SCHEDULED classes whose WAITLISTED bookings number
      strictly more than the threshold. */
  function FindClassesWithHighWaitlist(scs: seq<ClassSchedule>, bs: seq<ClassBooking>, waitlistThreshold: int): (r: seq<ScheduleId>)
    ensures forall i: int :: i in r <==> (0 <= i < |scs| && scs[i].status == ClassStatus.Scheduled
      && |ClassBookingRepository.FindByClassScheduleAndStatus(bs, i, BookingStatus.Waitlisted)| > waitlistThreshold)
    ensures Increasing(r)
  {
    var waiting := (i: nat) => ClassBookingRepository.CountByClassScheduleAndStatus(bs, i, BookingStatus.Waitlisted);
    var all := Select(scs, (c: ClassSchedule) => c.status == ClassStatus.Scheduled);
    FilterIds(all, (i: nat) => i < |scs| && waiting(i) > waitlistThreshold)
  }

  /** Keeps the ids that pass `p`, in their order. */
  function FilterIds(xs: seq<nat>, p: nat -> bool): (r: seq<nat>)
    ensures forall y :: y in r <==> y in xs && p(y)
    ensures Increasing(xs) ==> Increasing(r)
    decreases |xs|
  {
    if |xs| == 0 then []
    else
      var rest := FilterIds(xs[1..], p);
      assert forall y :: y in xs <==> y == xs[0] || y in xs[1..];
      assert Increasing(xs) ==> forall a :: 0 <= a < |rest| ==> xs[0] < rest[a] by {
        if Increasing(xs) {
          forall a | 0 <= a < |rest| ensures xs[0] < rest[a] {
            assert rest[a] in xs[1..];
          }
        }
      }
      if p(xs[0]) then [xs[0]] + rest else rest
  }

  /** findUpcomingClassesByCountry: SCHEDULED classes of the country starting strictly
      after now, earliest first. */
  function FindUpcomingClassesByCountry(scs: seq<ClassSchedule>, country: string, now: Time): (r: seq<ScheduleId>)
    ensures forall i: int :: i in r <==> (0 <= i < |scs| && scs[i].country == country
      && scs[i].status == ClassStatus.Scheduled && scs[i].startTime > now)
    ensures Distinct(r)
    ensures SortedBy(r, ByStart(scs))
  {
    SelectByStart(scs, (c: ClassSchedule) => c.country == country && c.status == ClassStatus.Scheduled
      && c.startTime > now)
  }

  /** findScheduledClassesBetween: SCHEDULED classes whose start lies in the inclusive
      range. */
  function FindScheduledClassesBetween(scs: seq<ClassSchedule>, startTime: Time, endTime: Time): (r: seq<ScheduleId>)
    ensures forall i: int :: i in r <==> (0 <= i < |scs| && scs[i].status == ClassStatus.Scheduled
      && startTime <= scs[i].startTime <= endTime)
    ensures Increasing(r)
  {
    FindByStatusAndStartTimeBetween(scs, ClassStatus.Scheduled, startTime, endTime)
  }
}
