/** The periodic jobs of com.app.booking.scheduler.BookingScheduler: closing finished
    classes, expiring packages (and cancelling the reservations drawn on them) and
    counting old bookings. The clock is the `now` parameter; the six-month cutoff of
    the clean-up job is a parameter too. */
module BookingScheduler {
  import opened Wrappers
  import opened Queries
  import opened Entities
  import opened Persistence
  import opened BookingRules
  import opened BookingServiceImpl
  import CB = ClassBookingRepository
  import UP = UserPackageRepository

  /** A reservation that still holds or waits for a seat in a class that has not
      started yet. */
  predicate Upcoming(b: ClassBooking, scs: seq<ClassSchedule>, now: Time) {
    b.schedule < |scs| && scs[b.schedule].startTime > now
    && (b.status == BookingStatus.Booked || b.status == BookingStatus.Waitlisted)
  }

  /** The booking is drawn on a package that the expiry job finds ACTIVE but past its
      expiry date. */
  predicate OnExpiringPackage(b: ClassBooking, ups: seq<UserPackage>, now: Time) {
    b.userPackage < |ups| && UP.ExpiredActive(ups[b.userPackage], now)
  }

  /** The user-package table after the expiry job: every ACTIVE package whose expiry
      date has passed is EXPIRED, every other row is kept. */
  function ExpiredAll(ups: seq<UserPackage>, now: Time): seq<UserPackage> {
    seq(|ups|, i requires 0 <= i < |ups| =>
      if UP.ExpiredActive(ups[i], now) then ups[i].(status := UserPackageStatus.Expired) else ups[i])
  }

  /** The bookings table after the expiry job: every upcoming reservation on an
      expiring package is CANCELLED at now, every other row is kept. */
  function CancelledFuture(bs: seq<ClassBooking>, ups: seq<UserPackage>, scs: seq<ClassSchedule>, now: Time): seq<ClassBooking> {
    seq(|bs|, j requires 0 <= j < |bs| =>
      if OnExpiringPackage(bs[j], ups, now) && Upcoming(bs[j], scs, now) then CancelledEntry(bs[j], now) else bs[j])
  }

  /** A booking the clean-up job reports: CANCELLED or NO_SHOW, of a class that ended
      before the cutoff. */
  predicate Archivable(b: ClassBooking, scs: seq<ClassSchedule>, cutoff: Time) {
    (b.status == BookingStatus.Cancelled || b.status == BookingStatus.NoShow)
    && b.schedule < |scs| && scs[b.schedule].endTime < cutoff
  }

  /** The ids of the bookings the clean-up job reports. */
  function ArchivableRows(bs: seq<ClassBooking>, scs: seq<ClassSchedule>, cutoff: Time): set<BookingId> {
    set j: nat | j < |bs| && Archivable(bs[j], scs, cutoff)
  }

  /** The expiry job changes only statuses: no balance moves, every package it
      touches becomes EXPIRED, and afterwards no ACTIVE package is past its expiry
      date. */
  lemma ExpiryMovesNoCredits(ups: seq<UserPackage>, now: Time)
    ensures var ups' := ExpiredAll(ups, now);
      && |ups'| == |ups|
      && (forall i :: 0 <= i < |ups| ==>
            ups'[i] == ups[i].(status := ups'[i].status)
            && (ups'[i] != ups[i] <==> UP.ExpiredActive(ups[i], now))
            && (ups'[i] != ups[i] ==> ups'[i].status == UserPackageStatus.Expired))
      && (forall i :: 0 <= i < |ups'| ==> !UP.ExpiredActive(ups'[i], now))
  {
  }

  /** The expiry job cancels only reservations that still hold or wait for a seat in a
      class yet to start, drawn on a package it expires; afterwards none of those
      remains, and nobody gains a seat (no waitlisted member is promoted into the
      seats it frees). */
  lemma ExpiryCancelsOnlyUpcomingReservations(bs: seq<ClassBooking>, ups: seq<UserPackage>, scs: seq<ClassSchedule>, now: Time)
    ensures var bs' := CancelledFuture(bs, ups, scs, now);
      && |bs'| == |bs|
      && (forall j :: 0 <= j < |bs| ==>
            (bs'[j] != bs[j] <==> OnExpiringPackage(bs[j], ups, now) && Upcoming(bs[j], scs, now))
            && (bs'[j] != bs[j] ==> bs'[j].status == BookingStatus.Cancelled && bs'[j].cancellationTime == Some(now))
            && (OnExpiringPackage(bs[j], ups, now) ==> !Upcoming(bs'[j], scs, now))
            && (bs'[j].status == BookingStatus.Booked ==> bs[j].status == BookingStatus.Booked)
            && bs'[j].user == bs[j].user && bs'[j].schedule == bs[j].schedule
            && bs'[j].userPackage == bs[j].userPackage)
  {
  }

  /** Running the expiry job a second time at the same instant changes nothing. */
  lemma {:induction false} ExpiryIsIdempotent(bs: seq<ClassBooking>, ups: seq<UserPackage>, scs: seq<ClassSchedule>, now: Time)
    ensures var ups', bs' := ExpiredAll(ups, now), CancelledFuture(bs, ups, scs, now);
      ExpiredAll(ups', now) == ups' && CancelledFuture(bs', ups', scs, now) == bs'
  {
    var ups', bs' := ExpiredAll(ups, now), CancelledFuture(bs, ups, scs, now);
    assert forall i :: 0 <= i < |ups'| ==> !UP.ExpiredActive(ups'[i], now);
    assert forall j :: 0 <= j < |bs'| ==> !OnExpiringPackage(bs'[j], ups', now);
  }

  /** The expiry job keeps the table's integrity and the balance constraint. */
  lemma ExpiryKeepsIntegrity(catalogue: seq<Package>, ups: seq<UserPackage>, scs: seq<ClassSchedule>, bs: seq<ClassBooking>, now: Time)
    requires WellFormed(catalogue, ups, scs, bs)
    ensures WellFormed(catalogue, ExpiredAll(ups, now), scs, CancelledFuture(bs, ups, scs, now))
    ensures AllCreditsInRange(ups) ==> AllCreditsInRange(ExpiredAll(ups, now))
  {
  }

  /** The rows the clean-up job reports are the old CANCELLED rows and the old
      NO_SHOW rows, two disjoint sets. */
  lemma {:induction false} ArchivableRowsSplit(bs: seq<ClassBooking>, scs: seq<ClassSchedule>, cutoff: Time)
    ensures |ArchivableRows(bs, scs, cutoff)|
      == |CB.FindOldBookingsByStatusAndDate(bs, scs, BookingStatus.Cancelled, cutoff)|
       + |CB.FindOldBookingsByStatusAndDate(bs, scs, BookingStatus.NoShow, cutoff)|
  {
    var cancelled := (b: ClassBooking) => b.status == BookingStatus.Cancelled && b.schedule < |scs| && scs[b.schedule].endTime < cutoff;
    var noShow := (b: ClassBooking) => b.status == BookingStatus.NoShow && b.schedule < |scs| && scs[b.schedule].endTime < cutoff;
    SelectCount(bs, cancelled);
    SelectCount(bs, noShow);
    assert CB.FindOldBookingsByStatusAndDate(bs, scs, BookingStatus.Cancelled, cutoff) == Select(bs, cancelled);
    assert CB.FindOldBookingsByStatusAndDate(bs, scs, BookingStatus.NoShow, cutoff) == Select(bs, noShow);
    var all := ArchivableRows(bs, scs, cutoff);
    assert all == Rows(bs, cancelled) + Rows(bs, noShow);
    assert Rows(bs, cancelled) * Rows(bs, noShow) == {};
  }

  /** The first `n` packages of `ids` have been expired: each is EXPIRED and the
      upcoming reservations drawn on each are CANCELLED; every other row is as it
      was. */
  ghost predicate ExpiredThrough(ups0: seq<UserPackage>, bs0: seq<ClassBooking>, ups: seq<UserPackage>,
                                 bs: seq<ClassBooking>, scs: seq<ClassSchedule>, ids: seq<UserPackageId>, n: nat, now: Time)
    requires n <= |ids|
  {
    && |ups| == |ups0| && |bs| == |bs0|
    && (forall k :: 0 <= k < |ups0| ==>
          ups[k] == if k in ids[..n] then ups0[k].(status := UserPackageStatus.Expired) else ups0[k])
    && (forall j :: 0 <= j < |bs0| ==>
          bs[j] == if bs0[j].userPackage in ids[..n] && Upcoming(bs0[j], scs, now) then CancelledEntry(bs0[j], now) else bs0[j])
  }

  /** Expiring the next package of `ids` extends the expired prefix by one. */
  lemma ExpireStep(ups0: seq<UserPackage>, bs0: seq<ClassBooking>, ups: seq<UserPackage>, bs: seq<ClassBooking>,
                   scs: seq<ClassSchedule>, ids: seq<UserPackageId>, n: nat, now: Time,
                   ups': seq<UserPackage>, bs': seq<ClassBooking>)
    requires n < |ids| && Distinct(ids) && ids[n] < |ups|
    requires ExpiredThrough(ups0, bs0, ups, bs, scs, ids, n, now)
    requires ups' == ups[ids[n] := ups[ids[n]].(status := UserPackageStatus.Expired)]
    requires |bs'| == |bs|
    requires forall j :: 0 <= j < |bs| ==>
      bs'[j] == if bs[j].userPackage == ids[n] && Upcoming(bs[j], scs, now) then CancelledEntry(bs[j], now) else bs[j]
    ensures ExpiredThrough(ups0, bs0, ups', bs', scs, ids, n + 1, now)
  {
    var k := ids[n];
    assert ids[..n + 1] == ids[..n] + [k];
    assert k !in ids[..n] by {
      forall a | 0 <= a < n ensures ids[..n][a] != k {
        assert ids[a] != ids[n];
      }
    }
  }

  /** Once every package the query found is expired, the tables are those the job is
      specified to leave. */
  lemma ExpiredThroughAll(ups0: seq<UserPackage>, bs0: seq<ClassBooking>, ups: seq<UserPackage>, bs: seq<ClassBooking>,
                          scs: seq<ClassSchedule>, ids: seq<UserPackageId>, now: Time)
    requires forall i: int :: i in ids <==> (0 <= i < |ups0| && UP.ExpiredActive(ups0[i], now))
    requires ExpiredThrough(ups0, bs0, ups, bs, scs, ids, |ids|, now)
    ensures ups == ExpiredAll(ups0, now) && bs == CancelledFuture(bs0, ups0, scs, now)
  {
    assert ids[..|ids|] == ids;
    assert forall k :: 0 <= k < |ups0| ==> ups[k] == ExpiredAll(ups0, now)[k];
    assert forall j :: 0 <= j < |bs0| ==> bs[j] == CancelledFuture(bs0, ups0, scs, now)[j];
  }

  class Scheduler {
    const bookingService: BookingService
    const store: Store

    ghost predicate Valid()
      reads this, store
    {
      bookingService.store == store && store.Valid()
    }

    constructor (bookingService: BookingService)
      requires bookingService.store.Valid()
      ensures this.bookingService == bookingService && store == bookingService.store
      ensures Valid()
    {
      this.bookingService := bookingService;
      this.store := bookingService.store;
    }

    /** processCompletedClasses job: delegates to the booking service; the wrapper
        swallows failures, and the delegate has none. */
    method ProcessCompletedClasses(now: Time)
      requires Valid()
      modifies store
      ensures Valid()
      ensures store.schedules == ClosedSchedules(old(store.schedules), now)
      ensures store.bookings == SettledBookings(old(store.bookings), old(store.schedules), now)
      ensures store.userPackages == old(store.userPackages)
      ensures store.catalogue == old(store.catalogue) && store.locks == old(store.locks)
    {
      bookingService.ProcessCompletedClasses(now);
    }

    /** updateExpiredPackages job: marks every ACTIVE package past its expiry date
        EXPIRED, cancels the upcoming reservations drawn on it, and reports how many
        packages it expired. */
    method UpdateExpiredPackages(now: Time) returns (updatedCount: nat)
      requires Valid()
      modifies store
      ensures Valid()
      ensures updatedCount == |Rows(old(store.userPackages), (p: UserPackage) => UP.ExpiredActive(p, now))|
      ensures store.userPackages == ExpiredAll(old(store.userPackages), now)
      ensures store.bookings == CancelledFuture(old(store.bookings), old(store.userPackages), old(store.schedules), now)
      ensures store.schedules == old(store.schedules)
      ensures store.catalogue == old(store.catalogue) && store.locks == old(store.locks)
    {
      ghost var ups0 := store.userPackages;
      ghost var bs0 := store.bookings;
      updatedCount := 0;
      var expiredPackages := UP.FindExpiredActivePackages(store.userPackages, now);
      IncreasingIsDistinct(expiredPackages);
      var i := 0;
      while i < |expiredPackages|
        invariant 0 <= i <= |expiredPackages|
        invariant Valid()
        invariant updatedCount == i
        invariant ExpiredThrough(ups0, bs0, store.userPackages, store.bookings, store.schedules, expiredPackages, i, now)
        invariant store.schedules == old(store.schedules)
        invariant store.catalogue == old(store.catalogue) && store.locks == old(store.locks)
      {
        var k := expiredPackages[i];
        assert k in expiredPackages;
        ghost var ups1, bs1 := store.userPackages, store.bookings;
        store.userPackages := store.userPackages[k := store.userPackages[k].(status := UserPackageStatus.Expired)];
        updatedCount := updatedCount + 1;
        CancelFutureBookingsForExpiredPackage(k, now);
        ExpireStep(ups0, bs0, ups1, bs1, store.schedules, expiredPackages, i, now, store.userPackages, store.bookings);
        i := i + 1;
      }
      SelectCount(ups0, (p: UserPackage) => UP.ExpiredActive(p, now));
      ExpiredThroughAll(ups0, bs0, store.userPackages, store.bookings, store.schedules, expiredPackages, now);
    }

    /** cancelFutureBookingsForExpiredPackage: every BOOKED or WAITLISTED booking on
        the package whose class starts after now becomes CANCELLED at now. The test
        for a confirmed seat that would start a promotion comes after the status has
        been overwritten, so that branch is never taken. */
    method CancelFutureBookingsForExpiredPackage(expiredPackage: UserPackageId, now: Time)
      requires Valid()
      modifies store
      ensures Valid()
      ensures |store.bookings| == |old(store.bookings)|
      ensures forall j :: 0 <= j < |store.bookings| ==>
        store.bookings[j] == if old(store.bookings)[j].userPackage == expiredPackage && Upcoming(old(store.bookings)[j], store.schedules, now)
          then CancelledEntry(old(store.bookings)[j], now) else old(store.bookings)[j]
      ensures store.userPackages == old(store.userPackages) && store.schedules == old(store.schedules)
      ensures store.catalogue == old(store.catalogue) && store.locks == old(store.locks)
    {
      ghost var bs0 := store.bookings;
      var futureBookings := CB.FindFutureBookingsByUserPackage(store.bookings, store.schedules, expiredPackage, now);
      var i := 0;
      while i < |futureBookings|
        invariant 0 <= i <= |futureBookings|
        invariant Valid()
        invariant |store.bookings| == |bs0|
        invariant forall j :: 0 <= j < |bs0| ==>
          store.bookings[j] == if j in futureBookings[..i] then CancelledEntry(bs0[j], now) else bs0[j]
        invariant store.userPackages == old(store.userPackages) && store.schedules == old(store.schedules)
        invariant store.catalogue == old(store.catalogue) && store.locks == old(store.locks)
      {
        var j := futureBookings[i];
        assert j in futureBookings;
        assert j !in futureBookings[..i];
        var booking := store.bookings[j];
        if booking.status == BookingStatus.Booked || booking.status == BookingStatus.Waitlisted {
          booking := booking.(status := BookingStatus.Cancelled, cancellationTime := Some(now));
          store.bookings := store.bookings[j := booking];
          if booking.status == BookingStatus.Booked {
            assert false;
          }
        }
        assert futureBookings[..i + 1] == futureBookings[..i] + [j];
        i := i + 1;
      }
      assert futureBookings[..i] == futureBookings;
    }

    /** cleanupOldBookings job: counts the CANCELLED and NO_SHOW bookings of classes
        that ended before the cutoff, and changes nothing. */
    method CleanupOldBookings(cutoff: Time) returns (cleanedCount: nat)
      ensures cleanedCount == |ArchivableRows(store.bookings, store.schedules, cutoff)|
    {
      var oldCancelledBookings := CB.FindOldBookingsByStatusAndDate(store.bookings, store.schedules, BookingStatus.Cancelled, cutoff);
      var oldCompletedBookings := CB.FindOldBookingsByStatusAndDate(store.bookings, store.schedules, BookingStatus.NoShow, cutoff);
      cleanedCount := |oldCancelledBookings| + |oldCompletedBookings|;
      ArchivableRowsSplit(store.bookings, store.schedules, cutoff);
    }
  }
}
