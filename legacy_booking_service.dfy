/** The booking service of the older variant (com.bookingsystem.service.
    BookingService): its decision rules as pure functions, and the service class
    that performs them in place on the same store. It differs from the main service
    in what it checks (no booking cut-off, only BOOKED seats conflict, CHECKED_IN
    bookings can be cancelled, one check-in window error), in its ledger (a debit
    never marks a package USED_UP, promotion does not look at the package) and in
    its lock release (an unconditional delete). */
module LegacyBookingService {
  import opened Wrappers
  import opened Queries
  import opened Entities
  import opened RedisLock
  import opened Persistence
  import R = BookingRules
  import L = LegacyEntities
  import CB = ClassBookingRepository
  import UP = UserPackageRepository

  /** The check-in window, fixed in the code: from 15 minutes before start to 30
      minutes after it, both ends included. */
  const CheckInOpensMinutes: int := 15
  const CheckInClosesMinutes: int := 30

  // ---------------------------------------------------------------------------
  // Booking rules

  /** hasTimeConflict: some BOOKED booking of the member is for a class that
      overlaps `sc`; CHECKED_IN bookings are not looked at. */
  predicate HasTimeConflict(bs: seq<ClassBooking>, scs: seq<ClassSchedule>, user: UserId, sc: ClassSchedule) {
    var booked := CB.FindByUserAndStatus(bs, user, BookingStatus.Booked);
    exists a :: 0 <= a < |booked| && booked[a] < |bs| && R.ClashesWith(bs[booked[a]], scs, sc)
  }

  /** The conflict test finds exactly the member's BOOKED bookings whose class
      overlaps; so a member checked in to an overlapping class is refused by the
      main variant and not by this one. */
  lemma HasTimeConflictMeans(bs: seq<ClassBooking>, scs: seq<ClassSchedule>, user: UserId, sc: ClassSchedule)
    ensures HasTimeConflict(bs, scs, user, sc) <==>
      exists i :: 0 <= i < |bs| && bs[i].user == user && bs[i].status == BookingStatus.Booked && R.ClashesWith(bs[i], scs, sc)
    ensures (forall i :: 0 <= i < |bs| && bs[i].user == user ==> bs[i].status != BookingStatus.Booked)
      ==> !HasTimeConflict(bs, scs, user, sc)
    ensures HasTimeConflict(bs, scs, user, sc) ==> R.HasTimeConflict(bs, scs, user, sc)
  {
    var booked := CB.FindByUserAndStatus(bs, user, BookingStatus.Booked);
    if i :| 0 <= i < |bs| && bs[i].user == user && bs[i].status == BookingStatus.Booked && R.ClashesWith(bs[i], scs, sc) {
      assert i in booked;
      var a :| 0 <= a < |booked| && booked[a] == i;
    }
    R.HasTimeConflictMeans(bs, scs, user, sc);
  }

  /** The stream filter of findSuitableUserPackage: isActive() and at least the
      class's price left. */
  predicate Suitable(p: UserPackage, required: int, now: Time) {
    L.IsActive(p, now) && p.remainingCredits >= required
  }

  /** For a class that costs something the filter is the main variant's; for a free
      class it still demands a credit. */
  lemma SuitableAgreesWithMain(p: UserPackage, required: int, now: Time)
    ensures required > 0 ==> (Suitable(p, required, now) <==> R.Suitable(p, required, now))
    ensures required <= 0 && p.remainingCredits == 0 ==> !Suitable(p, required, now)
  {
  }

  /** findSuitableUserPackage: the first suitable package of the member for the
      class's country in soonest-expiry order, if any. */
  function FindSuitableUserPackage(ups: seq<UserPackage>, catalogue: seq<Package>, user: UserId,
                                   sc: ClassSchedule, now: Time): (r: Option<UserPackageId>)
    ensures r.None? <==> forall i :: 0 <= i < |ups| && R.OwnedFor(ups[i], catalogue, user, sc.country) ==>
      !Suitable(ups[i], sc.requiredCredits, now)
    ensures r.Some? ==> (r.value < |ups| && R.OwnedFor(ups[r.value], catalogue, user, sc.country)
      && Suitable(ups[r.value], sc.requiredCredits, now))
    ensures r.Some? ==> forall i :: (0 <= i < |ups| && R.OwnedFor(ups[i], catalogue, user, sc.country)
      && Suitable(ups[i], sc.requiredCredits, now)) ==> ups[r.value].expiryDate <= ups[i].expiryDate
  {
    var candidates := UP.FindByUserAndPackageEntityCountryOrderByExpiryDateAsc(ups, catalogue, user, sc.country);
    var usable := (i: nat) => i < |ups| && Suitable(ups[i], sc.requiredCredits, now);
    match FirstIndexWhere(candidates, usable)
    case None =>
      assert forall i :: 0 <= i < |ups| && R.OwnedFor(ups[i], catalogue, user, sc.country) ==>
        !Suitable(ups[i], sc.requiredCredits, now) by {
        forall i | 0 <= i < |ups| && R.OwnedFor(ups[i], catalogue, user, sc.country)
          ensures !Suitable(ups[i], sc.requiredCredits, now)
        {
          assert i in candidates;
          var a :| 0 <= a < |candidates| && candidates[a] == i;
          assert !usable(candidates[a]);
        }
      }
      None
    case Some(a) =>
      assert forall i :: (0 <= i < |ups| && R.OwnedFor(ups[i], catalogue, user, sc.country)
        && Suitable(ups[i], sc.requiredCredits, now)) ==> ups[candidates[a]].expiryDate <= ups[i].expiryDate by {
        forall i | 0 <= i < |ups| && R.OwnedFor(ups[i], catalogue, user, sc.country)
          && Suitable(ups[i], sc.requiredCredits, now)
          ensures ups[candidates[a]].expiryDate <= ups[i].expiryDate
        {
          assert i in candidates;
          FirstOfSortedIsLeast(candidates, UP.ByExpiry(ups), usable, i);
        }
      }
      assert candidates[a] in candidates;
      Some(candidates[a])
  }

  /** Some package of the member for the country passes the filter. */
  predicate CanPay(ups: seq<UserPackage>, catalogue: seq<Package>, user: UserId, sc: ClassSchedule, now: Time) {
    exists i :: 0 <= i < |ups| && R.OwnedFor(ups[i], catalogue, user, sc.country) && Suitable(ups[i], sc.requiredCredits, now)
  }

  /** The checks bookClass makes before it takes the lock, in its order; success
      names the package that pays. The class's start time is never consulted. */
  function ValidateBooking(catalogue: seq<Package>, ups: seq<UserPackage>, scs: seq<ClassSchedule>,
                           bs: seq<ClassBooking>, user: UserId, s: ScheduleId, now: Time)
    : (r: Result<UserPackageId, ServiceError>)
    ensures r.Success? <==> (s < |scs| && scs[s].status == ClassStatus.Scheduled
      && !HasTimeConflict(bs, scs, user, scs[s]) && CanPay(ups, catalogue, user, scs[s], now))
    ensures r.Success? ==> (s < |scs| && r.value < |ups| && R.OwnedFor(ups[r.value], catalogue, user, scs[s].country)
      && Suitable(ups[r.value], scs[s].requiredCredits, now))
    ensures r == Failure(ScheduleNotFound) <==> s >= |scs|
    ensures r == Failure(NotBookable) <==> (s < |scs| && scs[s].status != ClassStatus.Scheduled)
    ensures r == Failure(TimeConflict) <==> (s < |scs| && scs[s].status == ClassStatus.Scheduled
      && HasTimeConflict(bs, scs, user, scs[s]))
    ensures r == Failure(NoSuitablePackage) <==> (s < |scs| && scs[s].status == ClassStatus.Scheduled
      && !HasTimeConflict(bs, scs, user, scs[s]) && !CanPay(ups, catalogue, user, scs[s], now))
  {
    if s >= |scs| then Failure(ScheduleNotFound)
    else
      var sc := scs[s];
      if sc.status != ClassStatus.Scheduled then Failure(NotBookable)
      else if HasTimeConflict(bs, scs, user, sc) then Failure(TimeConflict)
      else
        match FindSuitableUserPackage(ups, catalogue, user, sc, now)
        case None => Failure(NoSuitablePackage)
        case Some(p) => Success(p)
  }

  /** Without a cut-off, a request the main variant refuses because the class has
      started or is about to start is accepted here whenever this variant's own
      conflict and package checks pass. */
  lemma StartedClassStillBookable(catalogue: seq<Package>, ups: seq<UserPackage>, scs: seq<ClassSchedule>,
                                  bs: seq<ClassBooking>, user: UserId, s: ScheduleId, now: Time)
    requires R.ValidateBooking(catalogue, ups, scs, bs, user, s, now) in
      {Failure(ServiceError.AlreadyStarted), Failure(ServiceError.BookingClosed)}
    requires s < |scs| && !HasTimeConflict(bs, scs, user, scs[s]) && CanPay(ups, catalogue, user, scs[s], now)
    ensures ValidateBooking(catalogue, ups, scs, bs, user, s, now).Success?
  {
  }

  /** The debit: the balance drops by the amount and nothing else changes. */
  function Deducted(p: UserPackage, n: int): (q: UserPackage)
    ensures q.remainingCredits == p.remainingCredits - n
    ensures q == p.(remainingCredits := q.remainingCredits)
  {
    p.(remainingCredits := p.remainingCredits - n)
  }

  /** Spending the last credits leaves the package ACTIVE in its status column,
      unlike the main variant's USED_UP, though isActive() no longer holds. */
  lemma DebitToZeroStaysActive(p: UserPackage, now: Time)
    requires p.status == UserPackageStatus.Active && Suitable(p, p.remainingCredits, now)
    ensures Deducted(p, p.remainingCredits).status == UserPackageStatus.Active
    ensures !L.IsActive(Deducted(p, p.remainingCredits), now)
    ensures R.Deducted(p, p.remainingCredits).status == UserPackageStatus.UsedUp
  {
  }

  /** The booking bookClass saves: the entity's constructor (BOOKED, booked now), set
      to WAITLISTED at the next position when the class is full. */
  function AdmittedBooking(bs: seq<ClassBooking>, sc: ClassSchedule, s: ScheduleId, user: UserId,
                           p: UserPackageId, now: Time): ClassBooking
  {
    var booking := L.NewClassBooking(user, s, p, now);
    if R.Full(bs, sc, s) then
      booking.(status := BookingStatus.Waitlisted, waitlistPosition := Some(R.NextWaitlistPosition(bs, s)))
    else booking
  }

  /** The saved booking is the one the main variant saves, so the capacity and
      queueing properties proved for it hold here too. */
  lemma {:induction false} AdmissionMatchesMain(bs: seq<ClassBooking>, sc: ClassSchedule, s: ScheduleId, user: UserId,
                                                p: UserPackageId, now: Time)
    requires R.BookedCount(bs, s) <= sc.maxCapacity
    ensures AdmittedBooking(bs, sc, s, user, p, now) == R.AdmittedBooking(bs, sc, s, user, p, now)
    ensures R.BookedCount(bs + [AdmittedBooking(bs, sc, s, user, p, now)], s) <= sc.maxCapacity
  {
    R.AdmissionRespectsCapacity(bs, sc, s, user, p, now);
  }

  /** The ledger after bookClass: a seat is paid for at once, a waitlist place is
      not. */
  function ChargedPackages(ups: seq<UserPackage>, bs: seq<ClassBooking>, sc: ClassSchedule, s: ScheduleId,
                           p: UserPackageId): (r: seq<UserPackage>)
    requires p < |ups|
    ensures |r| == |ups| && forall i :: 0 <= i < |ups| && i != p ==> r[i] == ups[i]
    ensures R.Full(bs, sc, s) ==> r == ups
    ensures !R.Full(bs, sc, s) ==> r[p].remainingCredits == ups[p].remainingCredits - sc.requiredCredits
  {
    if R.Full(bs, sc, s) then ups else ups[p := Deducted(ups[p], sc.requiredCredits)]
  }

  // ---------------------------------------------------------------------------
  // Check-in and cancellation rules

  predicate InCheckInWindow(sc: ClassSchedule, now: Time) {
    sc.startTime - CheckInOpensMinutes <= now <= sc.startTime + CheckInClosesMinutes
  }

  /** checkInToClass's checks in order: one error for either side of the window,
      and no test of an earlier check-in time. */
  function CheckInCheck(bs: seq<ClassBooking>, scs: seq<ClassSchedule>, user: UserId, k: BookingId, now: Time)
    : (r: Option<ServiceError>)
    requires k < |bs| ==> bs[k].schedule < |scs|
    ensures r.None? <==> (k < |bs| && bs[k].user == user && bs[k].status == BookingStatus.Booked
      && InCheckInWindow(scs[bs[k].schedule], now))
    ensures r == Some(OutsideCheckInWindow) <==> (k < |bs| && bs[k].user == user && bs[k].status == BookingStatus.Booked
      && !InCheckInWindow(scs[bs[k].schedule], now))
    ensures r == Some(NotConfirmed) <==> (k < |bs| && bs[k].user == user && bs[k].status != BookingStatus.Booked)
    ensures r == Some(NotOwner) <==> (k < |bs| && bs[k].user != user)
    ensures r == Some(BookingNotFound) <==> k >= |bs|
  {
    if k >= |bs| then Some(BookingNotFound)
    else
      var b := bs[k];
      if b.user != user then Some(NotOwner)
      else if b.status != BookingStatus.Booked then Some(NotConfirmed)
      else
        var classStartTime := scs[b.schedule].startTime;
        if now < classStartTime - CheckInOpensMinutes || now > classStartTime + CheckInClosesMinutes
        then Some(OutsideCheckInWindow)
        else None
  }

  /** cancelBooking's checks in order: only a booking already cancelled is refused,
      so a CHECKED_IN or NO_SHOW booking can be cancelled. */
  function CancelCheck(bs: seq<ClassBooking>, user: UserId, k: BookingId): (r: Option<ServiceError>)
    ensures r.None? <==> (k < |bs| && bs[k].user == user && bs[k].status != BookingStatus.Cancelled)
    ensures r == Some(AlreadyCancelled) <==> (k < |bs| && bs[k].user == user && bs[k].status == BookingStatus.Cancelled)
    ensures r == Some(NotOwner) <==> (k < |bs| && bs[k].user != user)
    ensures r == Some(BookingNotFound) <==> k >= |bs|
  {
    if k >= |bs| then Some(BookingNotFound)
    else if bs[k].user != user then Some(NotOwner)
    else if bs[k].status == BookingStatus.Cancelled then Some(AlreadyCancelled)
    else None
  }

  /** A member may cancel a class already checked in to here, which the main
      variant refuses; cancelling is final in both. */
  lemma CheckedInCanBeCancelled(bs: seq<ClassBooking>, user: UserId, k: BookingId, now: Time)
    requires k < |bs| && bs[k].user == user && bs[k].status == BookingStatus.CheckedIn
    ensures CancelCheck(bs, user, k).None?
    ensures R.CancelCheck(bs, user, k) == Some(CannotCancelCheckedIn)
    ensures CancelCheck(bs[k := R.CancelledEntry(bs[k], now)], user, k) == Some(AlreadyCancelled)
  {
  }

  // ---------------------------------------------------------------------------
  // Promotion

  /** promoteFromWaitlist: the head of the class's queue becomes BOOKED with its
      position cleared and its package is debited the price, whatever the package's
      state; an empty queue changes nothing. */
  function Promoted(ups: seq<UserPackage>, bs: seq<ClassBooking>, s: ScheduleId, required: int)
    : (r: (seq<UserPackage>, seq<ClassBooking>))
    requires R.PackagesExist(ups, bs)
    ensures |r.0| == |ups| && |r.1| == |bs|
  {
    match CB.FindFirstByClassScheduleAndStatusOrderByWaitlistPositionAsc(bs, s, BookingStatus.Waitlisted)
    case None => (ups, bs)
    case Some(k) =>
      var b := bs[k];
      (ups[b.userPackage := Deducted(ups[b.userPackage], required)], bs[k := R.PromotedEntry(b)])
  }

  /** Promotion moves the head of the queue into a seat and debits exactly its
      package; when nobody waits nothing changes. */
  lemma PromotionOutcome(ups: seq<UserPackage>, bs: seq<ClassBooking>, s: ScheduleId, required: int)
    requires R.PackagesExist(ups, bs)
    ensures var (ups', bs') := Promoted(ups, bs, s, required);
      if R.QueueEmpty(bs, s) then ups' == ups && bs' == bs
      else
        exists k ::
          && 0 <= k < |bs| && R.Queued(bs[k], s)
          && (forall i :: 0 <= i < |bs| && R.Queued(bs[i], s) ==> CB.PositionKey(bs[k]) <= CB.PositionKey(bs[i]))
          && bs' == bs[k := R.PromotedEntry(bs[k])]
          && ups' == ups[bs[k].userPackage := Deducted(ups[bs[k].userPackage], required)]
  {
  }

  /** Since the package is not checked, promotion can take a balance below zero,
      against the column constraint: one waiting member whose package is empty is
      promoted into a one-credit class and left owing a credit. */
  lemma PromotionAsWrittenOverdraws(ups: seq<UserPackage>, bs: seq<ClassBooking>)
    requires ups == [UserPackage(7, 0, 0, 0, 100000, 50, UserPackageStatus.Active)]
    requires bs == [ClassBooking(7, 0, 0, BookingStatus.Waitlisted, 0, None, None, Some(1))]
    ensures R.PackagesExist(ups, bs) && AllCreditsInRange(ups)
    ensures var ups' := Promoted(ups, bs, 0, 1).0;
      ups'[0].remainingCredits == -1 && !CreditsInRange(ups'[0])
  {
    assert CB.HoldsPosition(bs[0], 0, 1);
  }

  // ---------------------------------------------------------------------------
  // Cancellation as intended

  /** The early-cancellation test with the configured hours. */
  predicate EarlyCancellation(sc: ClassSchedule, now: Time, cancellationHours: int) {
    now < sc.startTime - cancellationHours * MinutesPerHour
  }

  /** cancelBooking with the status tested before it is overwritten: an early
      cancellation of a BOOKED seat gives the price back to its package and promotes
      the head of the queue. */
  function IntendedCancellation(ups: seq<UserPackage>, bs: seq<ClassBooking>, scs: seq<ClassSchedule>,
                                k: BookingId, now: Time, cancellationHours: int): (r: (seq<UserPackage>, seq<ClassBooking>))
    requires k < |bs| && bs[k].schedule < |scs| && R.PackagesExist(ups, bs)
    ensures |r.0| == |ups| && |r.1| == |bs|
  {
    var b := bs[k];
    var sc := scs[b.schedule];
    var cancelled := bs[k := R.CancelledEntry(b, now)];
    if b.status == BookingStatus.Booked && EarlyCancellation(sc, now, cancellationHours) then
      var p := ups[b.userPackage];
      Promoted(ups[b.userPackage := p.(remainingCredits := p.remainingCredits + sc.requiredCredits)],
               cancelled, b.schedule, sc.requiredCredits)
    else
      (ups, cancelled)
  }

  /** An early cancellation of a BOOKED seat in a class nobody waits for returns the
      price to the package that paid and touches no other balance; a late one, or the
      cancellation of any other booking, moves no credits. */
  lemma IntendedCancellationRefundsEarly(ups: seq<UserPackage>, bs: seq<ClassBooking>, scs: seq<ClassSchedule>,
                                         k: BookingId, now: Time, cancellationHours: int)
    requires k < |bs| && bs[k].schedule < |scs| && R.PackagesExist(ups, bs)
    requires R.QueueEmpty(bs, bs[k].schedule)
    ensures var (ups', bs') := IntendedCancellation(ups, bs, scs, k, now, cancellationHours);
      var pk := bs[k].userPackage;
      && bs' == bs[k := R.CancelledEntry(bs[k], now)]
      && (forall i :: 0 <= i < |ups| && i != pk ==> ups'[i] == ups[i])
      && ups'[pk].remainingCredits == ups[pk].remainingCredits
           + (if bs[k].status == BookingStatus.Booked && EarlyCancellation(scs[bs[k].schedule], now, cancellationHours)
              then scs[bs[k].schedule].requiredCredits else 0)
  {
    var cancelled := bs[k := R.CancelledEntry(bs[k], now)];
    assert R.QueueEmpty(cancelled, bs[k].schedule);
  }

  /** Cancelling any booking with any queue: the booking ends CANCELLED at now. An
      early cancellation of a BOOKED seat returns the price to the package that paid
      and then promotes the queued booking with the least position, debiting its
      package and touching nothing else (nothing more when nobody waits); any other
      cancellation moves no credits and promotes nobody. */
  lemma {:induction false} IntendedCancellationRefundsThenPromotes(ups: seq<UserPackage>, bs: seq<ClassBooking>,
                                                                   scs: seq<ClassSchedule>, k: BookingId, now: Time,
                                                                   cancellationHours: int)
    requires k < |bs| && bs[k].schedule < |scs| && R.PackagesExist(ups, bs)
    ensures var (ups', bs') := IntendedCancellation(ups, bs, scs, k, now, cancellationHours);
      var s := bs[k].schedule;
      var pk := bs[k].userPackage;
      var required := scs[s].requiredCredits;
      var cancelled := bs[k := R.CancelledEntry(bs[k], now)];
      var refunded := ups[pk := ups[pk].(remainingCredits := ups[pk].remainingCredits + required)];
      && bs'[k] == R.CancelledEntry(bs[k], now)
      && if bs[k].status == BookingStatus.Booked && EarlyCancellation(scs[s], now, cancellationHours) then
           if R.QueueEmpty(cancelled, s) then ups' == refunded && bs' == cancelled
           else exists j ::
             && 0 <= j < |bs| && R.Queued(cancelled[j], s)
             && (forall i :: 0 <= i < |bs| && R.Queued(cancelled[i], s) ==> CB.PositionKey(cancelled[j]) <= CB.PositionKey(cancelled[i]))
             && bs' == cancelled[j := R.PromotedEntry(cancelled[j])]
             && ups' == refunded[cancelled[j].userPackage := Deducted(refunded[cancelled[j].userPackage], required)]
         else ups' == ups && bs' == cancelled
  {
    var s := bs[k].schedule;
    var pk := bs[k].userPackage;
    var required := scs[s].requiredCredits;
    var cancelled := bs[k := R.CancelledEntry(bs[k], now)];
    var refunded := ups[pk := ups[pk].(remainingCredits := ups[pk].remainingCredits + required)];
    if bs[k].status == BookingStatus.Booked && EarlyCancellation(scs[s], now, cancellationHours) {
      assert R.PackagesExist(refunded, cancelled);
      PromotionOutcome(refunded, cancelled, s, required);
      assert !R.Queued(cancelled[k], s);
    }
  }

  // ---------------------------------------------------------------------------
  // The service

  class LegacyService {
    const store: Store
    /** app.booking.cancellation-hours, which has no default in this variant. */
    const cancellationHours: int

    constructor (store: Store, cancellationHours: int)
      ensures this.store == store && this.cancellationHours == cancellationHours
    {
      this.store := store;
      this.cancellationHours := cancellationHours;
    }

    /** bookClass: validate, take the class's lock (failing at once when it is
        held), count seats, save a BOOKED booking (debiting the package) or a
        WAITLISTED one at the next position, and delete the lock key whatever it
        holds by then. */
    method BookClass(user: UserId, scheduleId: ScheduleId, now: Time, lockValue: string)
      returns (r: Result<BookingId, ServiceError>)
      requires store.Valid()
      modifies store
      ensures store.Valid()
      ensures store.catalogue == old(store.catalogue) && store.schedules == old(store.schedules)
      ensures store.locks == old(store.locks)
      ensures var v := ValidateBooking(old(store.catalogue), old(store.userPackages), old(store.schedules),
                                       old(store.bookings), user, scheduleId, now);
        if v.Failure? then
          r == Failure(v.error)
          && store.userPackages == old(store.userPackages) && store.bookings == old(store.bookings)
        else if scheduleId in old(store.locks) then
          r == Failure(LockUnavailable)
          && store.userPackages == old(store.userPackages) && store.bookings == old(store.bookings)
        else
          var sc := old(store.schedules)[scheduleId];
          r == Success(|old(store.bookings)|)
          && store.bookings == old(store.bookings) + [AdmittedBooking(old(store.bookings), sc, scheduleId, user, v.value, now)]
          && store.userPackages == ChargedPackages(old(store.userPackages), old(store.bookings), sc, scheduleId, v.value)
    {
      if scheduleId >= |store.schedules| {
        return Failure(ScheduleNotFound);
      }
      var classSchedule := store.schedules[scheduleId];
      if classSchedule.status != ClassStatus.Scheduled {
        return Failure(NotBookable);
      }
      if HasTimeConflict(store.bookings, store.schedules, user, classSchedule) {
        return Failure(TimeConflict);
      }
      var found := FindSuitableUserPackage(store.userPackages, store.catalogue, user, classSchedule, now);
      if found.None? {
        return Failure(NoSuitablePackage);
      }
      var userPackage := found.value;
      assert ValidateBooking(store.catalogue, store.userPackages, store.schedules, store.bookings, user, scheduleId, now)
        == Success(userPackage);

      var (lockAcquired, held) := SetIfAbsent(store.locks, scheduleId, lockValue);
      if !lockAcquired {
        return Failure(LockUnavailable);
      }
      AcquireReleaseRestores(store.locks, scheduleId, lockValue);
      ghost var lockFree := store.locks;
      store.locks := held;
      r := SaveUnderLock(user, scheduleId, userPackage, now);
      store.locks := Delete(store.locks, scheduleId);
      assert store.locks == lockFree;
    }

    /** The work bookClass does while it holds the schedule's lock: count the seats
        taken, build the booking, queue it at the next position when the class is
        full or else debit the package, and save the booking as the next row. */
    method SaveUnderLock(user: UserId, scheduleId: ScheduleId, userPackage: UserPackageId, now: Time)
      returns (r: Result<BookingId, ServiceError>)
      requires store.Valid() && scheduleId < |store.schedules| && userPackage < |store.userPackages|
      modifies store
      ensures store.Valid()
      ensures store.catalogue == old(store.catalogue) && store.schedules == old(store.schedules)
      ensures store.locks == old(store.locks)
      ensures r == Success(|old(store.bookings)|)
      ensures store.bookings == old(store.bookings)
        + [AdmittedBooking(old(store.bookings), old(store.schedules)[scheduleId], scheduleId, user, userPackage, now)]
      ensures store.userPackages
        == ChargedPackages(old(store.userPackages), old(store.bookings), old(store.schedules)[scheduleId], scheduleId, userPackage)
    {
      var classSchedule := store.schedules[scheduleId];
      var bookedCount := CB.CountByClassScheduleAndStatus(store.bookings, scheduleId, BookingStatus.Booked);
      var booking := L.NewClassBooking(user, scheduleId, userPackage, now);
      if bookedCount >= classSchedule.maxCapacity {
        var waitlistPosition := R.NextWaitlistPosition(store.bookings, scheduleId);
        booking := booking.(status := BookingStatus.Waitlisted, waitlistPosition := Some(waitlistPosition));
      } else {
        store.userPackages := store.userPackages[userPackage := Deducted(store.userPackages[userPackage], classSchedule.requiredCredits)];
      }
      r := Success(|store.bookings|);
      store.bookings := store.bookings + [booking];
    }

    /** cancelBooking as the service performs it: the checks, then CANCELLED at now.
        The refund and promotion that follow test the status after it has been
        overwritten and never run. */
    method CancelBooking(user: UserId, bookingId: BookingId, now: Time) returns (r: Option<ServiceError>)
      requires store.Valid()
      modifies store
      ensures store.Valid()
      ensures r == CancelCheck(old(store.bookings), user, bookingId)
      ensures r.Some? ==> store.bookings == old(store.bookings)
      ensures r.None? ==> store.bookings == old(store.bookings)[bookingId := R.CancelledEntry(old(store.bookings)[bookingId], now)]
      ensures store.userPackages == old(store.userPackages) && store.schedules == old(store.schedules)
      ensures store.catalogue == old(store.catalogue) && store.locks == old(store.locks)
    {
      if bookingId >= |store.bookings| {
        return Some(BookingNotFound);
      }
      var booking := store.bookings[bookingId];
      if booking.user != user {
        return Some(NotOwner);
      }
      if booking.status == BookingStatus.Cancelled {
        return Some(AlreadyCancelled);
      }
      var classStartTime := store.schedules[booking.schedule].startTime;
      var isEarlyCancel := now < classStartTime - cancellationHours * MinutesPerHour;

      booking := booking.(status := BookingStatus.Cancelled, cancellationTime := Some(now));

      if booking.status == BookingStatus.Booked && isEarlyCancel {
        // the refund and the promotion of the waitlist's head
        assert false;
      }
      store.bookings := store.bookings[bookingId := booking];
      r := None;
    }

    /** checkInToClass */
    method CheckInToClass(user: UserId, bookingId: BookingId, now: Time) returns (r: Option<ServiceError>)
      requires store.Valid()
      modifies store
      ensures store.Valid()
      ensures r == CheckInCheck(old(store.bookings), old(store.schedules), user, bookingId, now)
      ensures r.Some? ==> store.bookings == old(store.bookings)
      ensures r.None? ==> store.bookings == old(store.bookings)[bookingId := R.CheckedInEntry(old(store.bookings)[bookingId], now)]
      ensures store.userPackages == old(store.userPackages) && store.schedules == old(store.schedules)
      ensures store.catalogue == old(store.catalogue) && store.locks == old(store.locks)
    {
      if bookingId >= |store.bookings| {
        return Some(BookingNotFound);
      }
      var booking := store.bookings[bookingId];
      if booking.user != user {
        return Some(NotOwner);
      }
      if booking.status != BookingStatus.Booked {
        return Some(NotConfirmed);
      }
      var classStartTime := store.schedules[booking.schedule].startTime;
      if now < classStartTime - CheckInOpensMinutes || now > classStartTime + CheckInClosesMinutes {
        return Some(OutsideCheckInWindow);
      }
      booking := booking.(status := BookingStatus.CheckedIn, checkInTime := Some(now));
      store.bookings := store.bookings[bookingId := booking];
      r := None;
    }

    /** promoteFromWaitlist */
    method PromoteFromWaitlist(scheduleId: ScheduleId)
      requires store.Valid() && scheduleId < |store.schedules|
      modifies store
      ensures store.Valid()
      ensures (store.userPackages, store.bookings)
        == Promoted(old(store.userPackages), old(store.bookings), scheduleId, old(store.schedules)[scheduleId].requiredCredits)
      ensures store.schedules == old(store.schedules)
      ensures store.catalogue == old(store.catalogue) && store.locks == old(store.locks)
    {
      var nextWaitlisted := CB.FindFirstByClassScheduleAndStatusOrderByWaitlistPositionAsc(
        store.bookings, scheduleId, BookingStatus.Waitlisted);
      if nextWaitlisted.Some? {
        var k := nextWaitlisted.value;
        var booking := store.bookings[k];
        booking := booking.(status := BookingStatus.Booked, waitlistPosition := None);
        var userPackage := store.userPackages[booking.userPackage];
        var required := store.schedules[scheduleId].requiredCredits;
        store.userPackages := store.userPackages[booking.userPackage := userPackage.(remainingCredits := userPackage.remainingCredits - required)];
        store.bookings := store.bookings[k := booking];
      }
    }
  }

  /** The cancellation as the service performs it, on a store holding one member's
      BOOKED seat in a one-credit class and a 4-hour cutoff: cancelled at minute 1000
      for a class that starts at minute 3000, the booking ends CANCELLED but the
      package keeps its 4 credits, where the intended rule gives them back and
      leaves 5. */
  method CancellationAsWrittenNeverRefunds() returns (status: BookingStatus, balance: int, intended: int)
    ensures status == BookingStatus.Cancelled
    ensures balance == 4
    ensures intended == 5
  {
    var store := new Store();
    var ups := [UserPackage(7, 0, 4, 0, 100000, 50, UserPackageStatus.Active)];
    var scs := [ClassSchedule(3000, 3060, 10, 1, "SG", ClassStatus.Scheduled)];
    var bs := [ClassBooking(7, 0, 0, BookingStatus.Booked, 0, None, None, None)];
    store.catalogue := [Package(10, 50, 30, "SG", PackageStatus.Active)];
    store.userPackages := ups;
    store.schedules := scs;
    store.bookings := bs;
    var service := new LegacyService(store, 4);
    var r := service.CancelBooking(7, 0, 1000);
    status := store.bookings[0].status;
    balance := store.userPackages[0].remainingCredits;
    IntendedCancellationRefundsThenPromotes(ups, bs, scs, 0, 1000, 4);
    intended := IntendedCancellation(ups, bs, scs, 0, 1000, 4).0[0].remainingCredits;
  }
}
