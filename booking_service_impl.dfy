/** The main booking service (com.app.booking.serviceImpl.BookingServiceImpl): the
    operations that change the store in place. Each method is specified by the rule
    functions of BookingRules, whose properties are proved there. The member making
    a request is given by id (user lookup by name is not part of this model), and
    the request's lock token stands for the generated lock value. */
module BookingServiceImpl {
  import opened Wrappers
  import opened Queries
  import opened Entities
  import opened RedisLock
  import opened Persistence
  import opened BookingRules
  import CB = ClassBookingRepository
  import CS = ClassScheduleRepository

  class BookingService {
    const store: Store
    /** The configured cancellation and check-in properties. */
    const settings: Settings

    constructor (store: Store, settings: Settings)
      ensures this.store == store && this.settings == settings
    {
      this.store := store;
      this.settings := settings;
    }

    /** bookClass: validate, take the class's lock, re-count seats under it, save a
        BOOKED booking (debiting the package) or a WAITLISTED one at the next
        position, and release the lock only if it still holds this request's
        token. The new booking's id is the next row of the bookings table. */
    method BookClass(user: UserId, scheduleId: ScheduleId, now: Time, token: string)
      returns (r: Result<BookingId, ServiceError>)
      requires store.Valid()
      modifies store
      ensures store.Valid()
      ensures store.catalogue == old(store.catalogue) && store.schedules == old(store.schedules)
      ensures store.locks == old(store.locks)
      ensures var v := ValidateBooking(old(store.catalogue), old(store.userPackages), old(store.schedules),
                                       old(store.bookings), user, scheduleId, now);
        if v.Failure? then
          r == Failure(v.error)
          && store.userPackages == old(store.userPackages) && store.bookings == old(store.bookings)
        else if scheduleId in old(store.locks) then
          r == Failure(LockUnavailable)
          && store.userPackages == old(store.userPackages) && store.bookings == old(store.bookings)
        else
          var sc := old(store.schedules)[scheduleId];
          r == Success(|old(store.bookings)|)
          && store.bookings == old(store.bookings) + [AdmittedBooking(old(store.bookings), sc, scheduleId, user, v.value, now)]
          && store.userPackages == ChargedPackages(old(store.userPackages), old(store.bookings), sc, scheduleId, v.value)
    {
      if scheduleId >= |store.schedules| {
        return Failure(ScheduleNotFound);
      }
      var sc := store.schedules[scheduleId];
      // validateClassBookable
      if sc.status != ClassStatus.Scheduled {
        return Failure(NotBookable);
      }
      if now > sc.startTime {
        return Failure(AlreadyStarted);
      }
      if now > sc.startTime - BookingCutoffMinutes {
        return Failure(BookingClosed);
      }
      if HasTimeConflict(store.bookings, store.schedules, user, sc) {
        return Failure(TimeConflict);
      }
      var found := FindSuitableUserPackage(store.userPackages, store.catalogue, user, sc, now);
      if found.None? {
        return Failure(NoSuitablePackage);
      }
      var p := found.value;

      var (acquired, held) := SetIfAbsent(store.locks, scheduleId, token);
      if !acquired {
        return Failure(LockUnavailable);
      }
      AcquireReleaseRestores(store.locks, scheduleId, token);
      ghost var lockFree := store.locks;
      store.locks := held;

      r := SaveUnderLock(user, scheduleId, p, now);

      store.locks := CompareAndDelete(store.locks, scheduleId, token);
      assert store.locks == lockFree;
    }

    /** The work bookClass does while it holds the class's lock: re-count the seats,
        save a BOOKED booking and debit the package, or a WAITLISTED one at the next
        position when the class is full; the booking is the next row. */
    method SaveUnderLock(user: UserId, scheduleId: ScheduleId, p: UserPackageId, now: Time)
      returns (r: Result<BookingId, ServiceError>)
      requires store.Valid() && scheduleId < |store.schedules| && p < |store.userPackages|
      modifies store
      ensures store.Valid()
      ensures store.catalogue == old(store.catalogue) && store.schedules == old(store.schedules)
      ensures store.locks == old(store.locks)
      ensures r == Success(|old(store.bookings)|)
      ensures store.bookings == old(store.bookings)
        + [AdmittedBooking(old(store.bookings), old(store.schedules)[scheduleId], scheduleId, user, p, now)]
      ensures store.userPackages
        == ChargedPackages(old(store.userPackages), old(store.bookings), old(store.schedules)[scheduleId], scheduleId, p)
    {
      var sc := store.schedules[scheduleId];
      var currentBookedCount := CB.CountByClassScheduleAndStatus(store.bookings, scheduleId, BookingStatus.Booked);
      var booking;
      if currentBookedCount >= sc.maxCapacity {
        var waitlistPosition := NextWaitlistPosition(store.bookings, scheduleId);
        booking := ClassBooking(user, scheduleId, p, BookingStatus.Waitlisted, now, None, None, Some(waitlistPosition));
      } else {
        booking := ClassBooking(user, scheduleId, p, BookingStatus.Booked, now, None, None, None);
        DeductCreditsFromPackage(p, sc.requiredCredits);
      }
      r := Success(|store.bookings|);
      store.bookings := store.bookings + [booking];
    }

    /** cancelBooking as the service performs it: the checks, then CANCELLED at now.
        The refund, promotion and compaction that follow in the source test the
        status after it has been overwritten and never run. */
    method CancelBooking(user: UserId, bookingId: BookingId, now: Time) returns (r: Option<ServiceError>)
      requires store.Valid()
      modifies store
      ensures store.Valid()
      ensures r == CancelCheck(old(store.bookings), user, bookingId)
      ensures r.Some? ==> store.bookings == old(store.bookings)
      ensures r.None? ==> store.bookings == old(store.bookings)[bookingId := CancelledEntry(old(store.bookings)[bookingId], now)]
      ensures store.userPackages == old(store.userPackages) && store.schedules == old(store.schedules)
      ensures store.catalogue == old(store.catalogue) && store.locks == old(store.locks)
    {
      if bookingId >= |store.bookings| {
        return Some(BookingNotFound);
      }
      var booking := store.bookings[bookingId];
      if booking.user != user {
        return Some(NotOwner);
      }
      if booking.status == BookingStatus.Cancelled {
        return Some(AlreadyCancelled);
      }
      if booking.status == BookingStatus.CheckedIn {
        return Some(CannotCancelCheckedIn);
      }
      var sc := store.schedules[booking.schedule];
      var isEarlyCancellation := now < sc.startTime - settings.cancellationHours * MinutesPerHour;

      booking := booking.(status := BookingStatus.Cancelled, cancellationTime := Some(now));

      if booking.status == BookingStatus.Booked {
        // the early refund and the promotion of the waitlist's head
        assert false;
      } else if booking.status == BookingStatus.Waitlisted {
        // the compaction behind the cancelled position
        assert false;
      }
      store.bookings := store.bookings[bookingId := booking];
      r := None;
    }

    /** checkInToClass */
    method CheckInToClass(user: UserId, bookingId: BookingId, now: Time) returns (r: Option<ServiceError>)
      requires store.Valid()
      modifies store
      ensures store.Valid()
      ensures r == CheckInCheck(old(store.bookings), old(store.schedules), user, bookingId, now, settings)
      ensures r.Some? ==> store.bookings == old(store.bookings)
      ensures r.None? ==> store.bookings == old(store.bookings)[bookingId := CheckedInEntry(old(store.bookings)[bookingId], now)]
      ensures store.userPackages == old(store.userPackages) && store.schedules == old(store.schedules)
      ensures store.catalogue == old(store.catalogue) && store.locks == old(store.locks)
    {
      if bookingId >= |store.bookings| {
        return Some(BookingNotFound);
      }
      var booking := store.bookings[bookingId];
      if booking.user != user {
        return Some(NotOwner);
      }
      if booking.status != BookingStatus.Booked {
        return Some(NotConfirmed);
      }
      if booking.checkInTime.Some? {
        return Some(AlreadyCheckedIn);
      }
      var classStartTime := store.schedules[booking.schedule].startTime;
      var checkinWindowStart := classStartTime - settings.checkinBeforeMinutes;
      var checkinWindowEnd := classStartTime + settings.checkinAfterMinutes;
      if now < checkinWindowStart {
        return Some(CheckInNotYetOpen);
      }
      if now > checkinWindowEnd {
        return Some(CheckInClosed);
      }
      booking := booking.(status := BookingStatus.CheckedIn, checkInTime := Some(now));
      store.bookings := store.bookings[bookingId := booking];
      r := None;
    }

    /** deductCreditsFromPackage */
    method DeductCreditsFromPackage(userPackage: UserPackageId, creditsToDeduct: int)
      requires store.Valid() && userPackage < |store.userPackages|
      modifies store
      ensures store.Valid()
      ensures store.userPackages ==
        old(store.userPackages)[userPackage := Deducted(old(store.userPackages)[userPackage], creditsToDeduct)]
      ensures store.bookings == old(store.bookings) && store.schedules == old(store.schedules)
      ensures store.catalogue == old(store.catalogue) && store.locks == old(store.locks)
    {
      var up := store.userPackages[userPackage];
      var newCredits := up.remainingCredits - creditsToDeduct;
      up := up.(remainingCredits := newCredits);
      if newCredits <= 0 {
        up := up.(status := UserPackageStatus.UsedUp);
      }
      store.userPackages := store.userPackages[userPackage := up];
    }

    /** refundCreditsToPackage */
    method RefundCreditsToPackage(userPackage: UserPackageId, creditsToRefund: int, now: Time)
      requires store.Valid() && userPackage < |store.userPackages|
      modifies store
      ensures store.Valid()
      ensures store.userPackages ==
        old(store.userPackages)[userPackage := Refunded(old(store.userPackages)[userPackage], creditsToRefund, now)]
      ensures store.bookings == old(store.bookings) && store.schedules == old(store.schedules)
      ensures store.catalogue == old(store.catalogue) && store.locks == old(store.locks)
    {
      var up := store.userPackages[userPackage];
      var newCredits := up.remainingCredits + creditsToRefund;
      up := up.(remainingCredits := newCredits);
      if up.status == UserPackageStatus.UsedUp && !IsExpired(up, now) {
        up := up.(status := UserPackageStatus.Active);
      }
      store.userPackages := store.userPackages[userPackage := up];
    }

    /** promoteFromWaitlist: the head of the class's queue is promoted and debited if
        its package can pay, otherwise cancelled at now, and the next one is tried.
        The position handed to updateWaitlistPositions has already been cleared. */
    method PromoteFromWaitlist(scheduleId: ScheduleId, now: Time)
      requires store.Valid() && scheduleId < |store.schedules|
      modifies store
      ensures store.Valid()
      ensures (store.userPackages, store.bookings) == Promoted(old(store.userPackages), old(store.bookings), scheduleId,
                                                               old(store.schedules)[scheduleId].requiredCredits, now)
      ensures store.schedules == old(store.schedules)
      ensures store.catalogue == old(store.catalogue) && store.locks == old(store.locks)
      decreases |QueueRows(store.bookings, scheduleId)|
    {
      var required := store.schedules[scheduleId].requiredCredits;
      var nextWaitlisted := CB.FindFirstByClassScheduleAndStatusOrderByWaitlistPositionAsc(
        store.bookings, scheduleId, BookingStatus.Waitlisted);
      if nextWaitlisted.Some? {
        var k := nextWaitlisted.value;
        var waitlistedBooking := store.bookings[k];
        var up := store.userPackages[waitlistedBooking.userPackage];
        if IsActive(up, now) && up.remainingCredits >= required {
          waitlistedBooking := waitlistedBooking.(status := BookingStatus.Booked, waitlistPosition := None);
          DeductCreditsFromPackage(waitlistedBooking.userPackage, required);
          store.bookings := store.bookings[k := waitlistedBooking];
          UpdateWaitlistPositions(scheduleId, waitlistedBooking.waitlistPosition);
        } else {
          waitlistedBooking := waitlistedBooking.(status := BookingStatus.Cancelled, cancellationTime := Some(now));
          RowsUpdate(store.bookings, CB.OfScheduleWithStatus(scheduleId, BookingStatus.Waitlisted), k, waitlistedBooking);
          assert k in QueueRows(store.bookings, scheduleId);
          store.bookings := store.bookings[k := waitlistedBooking];
          PromoteFromWaitlist(scheduleId, now);
        }
      }
    }

    /** updateWaitlistPositions: every queued booking of the class behind the removed
        position moves up by one; a null position leaves the queue as it is. */
    method UpdateWaitlistPositions(scheduleId: ScheduleId, removedPosition: Option<int>)
      requires store.Valid()
      modifies store
      ensures store.Valid()
      ensures store.bookings == Compacted(old(store.bookings), scheduleId, removedPosition)
      ensures store.userPackages == old(store.userPackages) && store.schedules == old(store.schedules)
      ensures store.catalogue == old(store.catalogue) && store.locks == old(store.locks)
    {
      if removedPosition.None? {
        return;
      }
      var removed := removedPosition.value;
      var waitlistedBookings := CB.FindByClassScheduleAndStatusAndWaitlistPositionGreaterThanOrderByWaitlistPositionAsc(
        store.bookings, scheduleId, BookingStatus.Waitlisted, removed);
      assert BehindRemoved(store.bookings, waitlistedBookings, scheduleId, removed);
      var bookings := RenumberBehind(store.bookings, waitlistedBookings, scheduleId, removed);
      CompactionKeepsWellFormed(store.catalogue, store.userPackages, store.schedules, store.bookings, scheduleId, removedPosition);
      store.bookings := bookings;
    }

    /** processCompletedClasses: every class still SCHEDULED whose end is before now
        becomes COMPLETED and its bookings are settled. */
    method ProcessCompletedClasses(now: Time)
      requires store.Valid()
      modifies store
      ensures store.Valid()
      ensures store.schedules == ClosedSchedules(old(store.schedules), now)
      ensures store.bookings == SettledBookings(old(store.bookings), old(store.schedules), now)
      ensures store.userPackages == old(store.userPackages)
      ensures store.catalogue == old(store.catalogue) && store.locks == old(store.locks)
    {
      ghost var scs0 := store.schedules;
      ghost var bs0 := store.bookings;
      var completedClasses := CS.FindByStatusAndEndTimeBefore(store.schedules, ClassStatus.Scheduled, now);
      IncreasingIsDistinct(completedClasses);
      var i := 0;
      while i < |completedClasses|
        invariant 0 <= i <= |completedClasses|
        invariant store.Valid()
        invariant ClosedThrough(scs0, bs0, store.schedules, store.bookings, completedClasses, i, now)
        invariant store.userPackages == old(store.userPackages)
        invariant store.catalogue == old(store.catalogue) && store.locks == old(store.locks)
      {
        var s := completedClasses[i];
        assert s in completedClasses;
        ghost var scs1, bs1 := store.schedules, store.bookings;
        store.schedules := store.schedules[s := store.schedules[s].(status := ClassStatus.Completed)];
        SettleBookingsOfClass(s, now);
        CloseStep(scs0, bs0, scs1, bs1, completedClasses, i, now, store.schedules, store.bookings);
        i := i + 1;
      }
      ClosedThroughAll(scs0, bs0, store.schedules, store.bookings, completedClasses, now);
    }

    /** The body of processCompletedClasses's loop for one class: its WAITLISTED
        bookings are CANCELLED at now, then its BOOKED bookings become NO_SHOW. */
    method SettleBookingsOfClass(s: ScheduleId, now: Time)
      requires store.Valid()
      modifies store
      ensures store.Valid()
      ensures |store.bookings| == |old(store.bookings)|
      ensures forall j :: 0 <= j < |old(store.bookings)| ==>
        store.bookings[j] == if old(store.bookings)[j].schedule == s then Settled(old(store.bookings)[j], now)
                             else old(store.bookings)[j]
      ensures store.userPackages == old(store.userPackages) && store.schedules == old(store.schedules)
      ensures store.catalogue == old(store.catalogue) && store.locks == old(store.locks)
    {
      CancelWaitlistedOfClass(s, now);
      MarkNoShowsOfClass(s, now);
    }

    /** The first loop of the pass for one class: each WAITLISTED booking of the
        class is CANCELLED at now and saved. */
    method CancelWaitlistedOfClass(s: ScheduleId, now: Time)
      requires store.Valid()
      modifies store
      ensures store.Valid()
      ensures |store.bookings| == |old(store.bookings)|
      ensures forall j :: 0 <= j < |old(store.bookings)| ==>
        store.bookings[j] == if old(store.bookings)[j].schedule == s && old(store.bookings)[j].status == BookingStatus.Waitlisted
                             then Settled(old(store.bookings)[j], now) else old(store.bookings)[j]
      ensures store.userPackages == old(store.userPackages) && store.schedules == old(store.schedules)
      ensures store.catalogue == old(store.catalogue) && store.locks == old(store.locks)
    {
      ghost var bs0 := store.bookings;
      var waitlistedBookings := CB.FindByClassScheduleAndStatus(store.bookings, s, BookingStatus.Waitlisted);
      IncreasingIsDistinct(waitlistedBookings);
      var i := 0;
      while i < |waitlistedBookings|
        invariant 0 <= i <= |waitlistedBookings|
        invariant store.Valid()
        invariant |store.bookings| == |bs0|
        invariant forall j :: 0 <= j < |bs0| ==>
          store.bookings[j] == if j in waitlistedBookings[..i] then Settled(bs0[j], now) else bs0[j]
        invariant store.userPackages == old(store.userPackages) && store.schedules == old(store.schedules)
        invariant store.catalogue == old(store.catalogue) && store.locks == old(store.locks)
      {
        var k := waitlistedBookings[i];
        assert k in waitlistedBookings;
        assert k !in waitlistedBookings[..i];
        var booking := store.bookings[k];
        store.bookings := store.bookings[k := booking.(status := BookingStatus.Cancelled, cancellationTime := Some(now))];
        assert waitlistedBookings[..i + 1] == waitlistedBookings[..i] + [k];
        i := i + 1;
      }
      assert waitlistedBookings[..i] == waitlistedBookings;
    }

    /** The second loop of the pass for one class: each BOOKED booking of the class
        becomes a NO_SHOW and is saved. */
    method MarkNoShowsOfClass(s: ScheduleId, now: Time)
      requires store.Valid()
      modifies store
      ensures store.Valid()
      ensures |store.bookings| == |old(store.bookings)|
      ensures forall j :: 0 <= j < |old(store.bookings)| ==>
        store.bookings[j] == if old(store.bookings)[j].schedule == s && old(store.bookings)[j].status == BookingStatus.Booked
                             then Settled(old(store.bookings)[j], now) else old(store.bookings)[j]
      ensures store.userPackages == old(store.userPackages) && store.schedules == old(store.schedules)
      ensures store.catalogue == old(store.catalogue) && store.locks == old(store.locks)
    {
      ghost var bs1 := store.bookings;
      var bookedBookings := CB.FindByClassScheduleAndStatus(store.bookings, s, BookingStatus.Booked);
      IncreasingIsDistinct(bookedBookings);
      var i := 0;
      while i < |bookedBookings|
        invariant 0 <= i <= |bookedBookings|
        invariant store.Valid()
        invariant |store.bookings| == |bs1|
        invariant forall j :: 0 <= j < |bs1| ==>
          store.bookings[j] == if j in bookedBookings[..i] then Settled(bs1[j], now) else bs1[j]
        invariant store.userPackages == old(store.userPackages) && store.schedules == old(store.schedules)
        invariant store.catalogue == old(store.catalogue) && store.locks == old(store.locks)
      {
        var k := bookedBookings[i];
        assert k in bookedBookings;
        assert k !in bookedBookings[..i];
        var booking := store.bookings[k];
        store.bookings := store.bookings[k := booking.(status := BookingStatus.NoShow)];
        assert bookedBookings[..i + 1] == bookedBookings[..i] + [k];
        i := i + 1;
      }
      assert bookedBookings[..i] == bookedBookings;
    }
  }

  /** The first `n` classes of `ids` have been closed: each is COMPLETED and the
      bookings of each are settled; every other class and booking is as it was. */
  ghost predicate ClosedThrough(scs0: seq<ClassSchedule>, bs0: seq<ClassBooking>, scs: seq<ClassSchedule>,
                                bs: seq<ClassBooking>, ids: seq<ScheduleId>, n: nat, now: Time)
    requires n <= |ids|
  {
    && |scs| == |scs0| && |bs| == |bs0|
    && (forall c :: 0 <= c < |scs0| ==>
          scs[c] == if c in ids[..n] then scs0[c].(status := ClassStatus.Completed) else scs0[c])
    && (forall j :: 0 <= j < |bs0| ==>
          bs[j] == if bs0[j].schedule in ids[..n] then Settled(bs0[j], now) else bs0[j])
  }

  /** Closing the next class of `ids` extends the closed prefix by one. */
  lemma CloseStep(scs0: seq<ClassSchedule>, bs0: seq<ClassBooking>, scs: seq<ClassSchedule>, bs: seq<ClassBooking>,
                  ids: seq<ScheduleId>, n: nat, now: Time, scs': seq<ClassSchedule>, bs': seq<ClassBooking>)
    requires n < |ids| && Distinct(ids) && ids[n] < |scs|
    requires ClosedThrough(scs0, bs0, scs, bs, ids, n, now)
    requires scs' == scs[ids[n] := scs[ids[n]].(status := ClassStatus.Completed)]
    requires |bs'| == |bs|
    requires forall j :: 0 <= j < |bs| ==> bs'[j] == if bs[j].schedule == ids[n] then Settled(bs[j], now) else bs[j]
    ensures ClosedThrough(scs0, bs0, scs', bs', ids, n + 1, now)
  {
    var k := ids[n];
    assert ids[..n + 1] == ids[..n] + [k];
    assert k !in ids[..n] by {
      forall a | 0 <= a < n ensures ids[..n][a] != k {
        assert ids[a] != ids[n];
      }
    }
  }

  /** Once every class the query found is closed, the tables are those the pass is
      specified to leave. */
  lemma ClosedThroughAll(scs0: seq<ClassSchedule>, bs0: seq<ClassBooking>, scs: seq<ClassSchedule>,
                         bs: seq<ClassBooking>, ids: seq<ScheduleId>, now: Time)
    requires forall i: int :: i in ids <==> (0 <= i < |scs0| && Ended(scs0[i], now))
    requires ClosedThrough(scs0, bs0, scs, bs, ids, |ids|, now)
    ensures scs == ClosedSchedules(scs0, now) && bs == SettledBookings(bs0, scs0, now)
  {
    assert ids[..|ids|] == ids;
    assert forall c :: 0 <= c < |scs0| ==> scs[c] == ClosedSchedules(scs0, now)[c];
    assert forall j :: 0 <= j < |bs0| ==> bs[j] == SettledBookings(bs0, scs0, now)[j];
  }

  /** The loop of updateWaitlistPositions: each booking the greater-than query
      returned moves up one position; the result is the compacted table. */
  method RenumberBehind(before: seq<ClassBooking>, ids: seq<BookingId>, s: ScheduleId, removed: int)
    returns (bookings: seq<ClassBooking>)
    requires BehindRemoved(before, ids, s, removed)
    ensures bookings == Compacted(before, s, Some(removed))
  {
    bookings := before;
    var i := 0;
    while i < |ids|
      invariant 0 <= i <= |ids|
      invariant ShiftedThrough(before, bookings, ids, i, s, removed)
    {
      var k := ids[i];
      ShiftStep(before, bookings, ids, i, s, removed);
      var booking := bookings[k];
      bookings := bookings[k := booking.(waitlistPosition := Some(booking.waitlistPosition.value - 1))];
      i := i + 1;
    }
    ShiftedRowsMakeCompaction(before, s, removed, ids, bookings);
  }

  /** The first `n` rows named by `ids` are shifted up one place and every other
      row is as it was. */
  ghost predicate ShiftedThrough(before: seq<ClassBooking>, after: seq<ClassBooking>, ids: seq<BookingId>, n: nat,
                                 s: ScheduleId, removed: int)
    requires n <= |ids|
  {
    && |after| == |before|
    && forall j :: 0 <= j < |before| ==>
         after[j] == if j in ids[..n] then Shifted(before[j], s, removed) else before[j]
  }

  /** The rows the greater-than query names are distinct, queued behind the removed
      position, so shifting the next one is the record update the loop performs. */
  ghost predicate BehindRemoved(before: seq<ClassBooking>, ids: seq<BookingId>, s: ScheduleId, removed: int) {
    && Distinct(ids)
    && (forall a :: 0 <= a < |ids| ==> ids[a] < |before|)
    && forall i: int :: i in ids <==> (0 <= i < |before| && before[i].schedule == s
      && before[i].status == BookingStatus.Waitlisted
      && before[i].waitlistPosition.Some? && before[i].waitlistPosition.value > removed)
  }

  /** Renumbering the next row named by `ids` extends ShiftedThrough by one row. */
  lemma ShiftStep(before: seq<ClassBooking>, after: seq<ClassBooking>, ids: seq<BookingId>, n: nat,
                  s: ScheduleId, removed: int)
    requires n < |ids| && BehindRemoved(before, ids, s, removed)
    requires ShiftedThrough(before, after, ids, n, s, removed)
    ensures ids[n] < |after| && after[ids[n]] == before[ids[n]] && after[ids[n]].waitlistPosition.Some?
    ensures var b := after[ids[n]];
      ShiftedThrough(before, after[ids[n] := b.(waitlistPosition := Some(b.waitlistPosition.value - 1))],
                     ids, n + 1, s, removed)
  {
    var k := ids[n];
    assert k in ids;
    assert ids[..n + 1] == ids[..n] + [k];
    assert k !in ids[..n] by {
      forall a | 0 <= a < n
        ensures ids[..n][a] != k
      {
        assert ids[a] != ids[n];
      }
    }
  }

  /** Compaction only renumbers positions, so every reference stays valid. */
  lemma CompactionKeepsWellFormed(catalogue: seq<Package>, ups: seq<UserPackage>, scs: seq<ClassSchedule>,
                                  bs: seq<ClassBooking>, s: ScheduleId, removed: Option<int>)
    requires WellFormed(catalogue, ups, scs, bs)
    ensures WellFormed(catalogue, ups, scs, Compacted(bs, s, removed))
  {
    CompactionMeans(bs, s, removed);
  }

  /** Shifting exactly the rows the greater-than query returns, and no other row,
      is the compaction of the whole table. */
  lemma ShiftedRowsMakeCompaction(before: seq<ClassBooking>, s: ScheduleId, removed: int,
                                  ids: seq<BookingId>, after: seq<ClassBooking>)
    requires BehindRemoved(before, ids, s, removed)
    requires ShiftedThrough(before, after, ids, |ids|, s, removed)
    ensures after == Compacted(before, s, Some(removed))
  {
    assert ids[..|ids|] == ids;
    var target := Compacted(before, s, Some(removed));
    forall j | 0 <= j < |before|
      ensures after[j] == target[j]
    {
      assert target[j] == Shifted(before[j], s, removed);
    }
  }

  /** The cancellation as the service performs it, on a store holding one member's
      BOOKED seat in a one-credit class: cancelled at minute 1000 for a class that
      starts at minute 3000, well before the default 4-hour cutoff, the booking ends
      CANCELLED but the package keeps its 4 credits, where the intended rule gives
      them back and leaves 5. */
  method CancellationAsWrittenNeverRefunds() returns (status: BookingStatus, balance: int, intended: int)
    ensures status == BookingStatus.Cancelled
    ensures balance == 4
    ensures intended == 5
  {
    var store := new Store();
    var ups := [UserPackage(7, 0, 4, 0, 100000, 50, UserPackageStatus.Active)];
    var scs := [ClassSchedule(3000, 3060, 10, 1, "SG", ClassStatus.Scheduled)];
    var bs := [ClassBooking(7, 0, 0, BookingStatus.Booked, 0, None, None, None)];
    store.catalogue := [Package(10, 50, 30, "SG", PackageStatus.Active)];
    store.userPackages := ups;
    store.schedules := scs;
    store.bookings := bs;
    var service := new BookingService(store, DefaultSettings);
    var r := service.CancelBooking(7, 0, 1000);
    status := store.bookings[0].status;
    balance := store.userPackages[0].remainingCredits;
    IntendedCancellationRefundsThenPromotes(ups, bs, scs, 0, 1000, DefaultSettings);
    intended := IntendedCancellation(ups, bs, scs, 0, 1000, DefaultSettings).0[0].remainingCredits;
  }
}
