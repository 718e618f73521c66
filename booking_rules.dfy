/** The decision rules of the main booking service (com.app.booking.serviceImpl.
    BookingServiceImpl) as pure functions over the tables: which requests are
    refused and why, which package pays, where a waitlisted request queues, how a
    debit and a refund move a balance, how the waitlist is compacted, how promotion
    walks the queue and how a finished class is settled. The service class in
    BookingServiceImpl performs these steps in place and is proved against them. */
module BookingRules {
  import opened Wrappers
  import opened Queries
  import opened Entities
  import CB = ClassBookingRepository
  import UP = UserPackageRepository

  /** The configured properties app.booking.cancellation-hours,
      app.booking.checkin-before-minutes and app.booking.checkin-after-minutes. */
  datatype Settings = Settings(cancellationHours: int, checkinBeforeMinutes: int, checkinAfterMinutes: int)

  /** The values the service uses when the configuration names none. */
  const DefaultSettings: Settings := Settings(4, 15, 30)

  /** The booking cut-off before class start, fixed in the code. */
  const BookingCutoffMinutes: int := 30

  // ---------------------------------------------------------------------------
  // Time conflicts

  /** timeOverlaps: strict intersection of two intervals. */
  predicate TimeOverlaps(start1: Time, end1: Time, start2: Time, end2: Time) {
    start1 < end2 && start2 < end1
  }

  /** The test does not depend on which interval is given first. */
  lemma TimeOverlapsSymmetric(start1: Time, end1: Time, start2: Time, end2: Time)
    ensures TimeOverlaps(start1, end1, start2, end2) <==> TimeOverlaps(start2, end2, start1, end1)
  {
  }

  /** Minute `t` lies in the interval [start, end). */
  predicate Within(t: Time, start: Time, end: Time) {
    start <= t < end
  }

  /** For two non-empty intervals the test holds exactly when some minute lies in
      both; intervals that only touch (one ends when the other starts) do not
      overlap. */
  lemma OverlapMeansSharedMinute(start1: Time, end1: Time, start2: Time, end2: Time)
    requires start1 < end1 && start2 < end2
    ensures TimeOverlaps(start1, end1, start2, end2) <==> exists t :: Within(t, start1, end1) && Within(t, start2, end2)
    ensures !TimeOverlaps(start1, end1, end1, end2)
  {
    if TimeOverlaps(start1, end1, start2, end2) {
      var t := if start1 < start2 then start2 else start1;
      assert Within(t, start1, end1) && Within(t, start2, end2);
    }
  }

  /** A booking that holds a seat: BOOKED or CHECKED_IN. */
  predicate Holding(b: ClassBooking) {
    b.status == BookingStatus.Booked || b.status == BookingStatus.CheckedIn
  }

  /** The booking's class overlaps `sc`. */
  predicate ClashesWith(b: ClassBooking, scs: seq<ClassSchedule>, sc: ClassSchedule) {
    b.schedule < |scs|
    && TimeOverlaps(scs[b.schedule].startTime, scs[b.schedule].endTime, sc.startTime, sc.endTime)
  }

  /** validateNoTimeConflict: some BOOKED or CHECKED_IN booking of the member is for
      a class that overlaps `sc`. */
  predicate HasTimeConflict(bs: seq<ClassBooking>, scs: seq<ClassSchedule>, user: UserId, sc: ClassSchedule) {
    var active := CB.FindByUserAndStatusIn(bs, user, {BookingStatus.Booked, BookingStatus.CheckedIn});
    exists a :: 0 <= a < |active| && active[a] < |bs| && ClashesWith(bs[active[a]], scs, sc)
  }

  /** The conflict test finds exactly the member's seat-holding bookings whose class
      overlaps, and agrees with the repository's findConflictingBookings query. */
  lemma HasTimeConflictMeans(bs: seq<ClassBooking>, scs: seq<ClassSchedule>, user: UserId, sc: ClassSchedule)
    ensures HasTimeConflict(bs, scs, user, sc) <==>
      exists i :: 0 <= i < |bs| && bs[i].user == user && Holding(bs[i]) && ClashesWith(bs[i], scs, sc)
    ensures HasTimeConflict(bs, scs, user, sc) <==>
      |CB.FindConflictingBookings(bs, scs, user, sc.startTime, sc.endTime)| > 0
  {
    var active := CB.FindByUserAndStatusIn(bs, user, {BookingStatus.Booked, BookingStatus.CheckedIn});
    var conflicting := CB.FindConflictingBookings(bs, scs, user, sc.startTime, sc.endTime);
    if i :| 0 <= i < |bs| && bs[i].user == user && Holding(bs[i]) && ClashesWith(bs[i], scs, sc) {
      assert i in active;
      var a :| 0 <= a < |active| && active[a] == i;
      assert i in conflicting;
    }
    if |conflicting| > 0 {
      assert conflicting[0] in conflicting;
      assert conflicting[0] in active;
    }
  }

  // ---------------------------------------------------------------------------
  // Package selection

  /** The stream filter of findSuitableUserPackage: ACTIVE, not expired and holding
      at least the class's price. */
  predicate Suitable(p: UserPackage, required: int, now: Time) {
    p.status == UserPackageStatus.Active && !IsExpired(p, now) && p.remainingCredits >= required
  }

  /** The member's package for the class's country. */
  predicate OwnedFor(p: UserPackage, catalogue: seq<Package>, user: UserId, country: string) {
    p.user == user && UP.InCountry(p, catalogue, country)
  }

  /** findSuitableUserPackage: the first suitable package in soonest-expiry order.
      There is none exactly when no package of the member for the country is
      suitable; otherwise the one chosen is suitable and expires no later than any
      other suitable one. */
  function FindSuitableUserPackage(ups: seq<UserPackage>, catalogue: seq<Package>, user: UserId,
                                   sc: ClassSchedule, now: Time): (r: Option<UserPackageId>)
    ensures r.None? <==> forall i :: 0 <= i < |ups| && OwnedFor(ups[i], catalogue, user, sc.country) ==>
      !Suitable(ups[i], sc.requiredCredits, now)
    ensures r.Some? ==> (r.value < |ups| && OwnedFor(ups[r.value], catalogue, user, sc.country)
      && Suitable(ups[r.value], sc.requiredCredits, now))
    ensures r.Some? ==> forall i :: (0 <= i < |ups| && OwnedFor(ups[i], catalogue, user, sc.country)
      && Suitable(ups[i], sc.requiredCredits, now)) ==> ups[r.value].expiryDate <= ups[i].expiryDate
  {
    var candidates := UP.FindByUserAndPackageEntityCountryOrderByExpiryDateAsc(ups, catalogue, user, sc.country);
    var usable := (i: nat) => i < |ups| && Suitable(ups[i], sc.requiredCredits, now);
    match FirstIndexWhere(candidates, usable)
    case None =>
      assert forall i :: 0 <= i < |ups| && OwnedFor(ups[i], catalogue, user, sc.country) ==>
        !Suitable(ups[i], sc.requiredCredits, now) by {
        forall i | 0 <= i < |ups| && OwnedFor(ups[i], catalogue, user, sc.country)
          ensures !Suitable(ups[i], sc.requiredCredits, now)
        {
          assert i in candidates;
          var a :| 0 <= a < |candidates| && candidates[a] == i;
          assert !usable(candidates[a]);
        }
      }
      None
    case Some(a) =>
      assert forall i :: (0 <= i < |ups| && OwnedFor(ups[i], catalogue, user, sc.country)
        && Suitable(ups[i], sc.requiredCredits, now)) ==> ups[candidates[a]].expiryDate <= ups[i].expiryDate by {
        forall i | 0 <= i < |ups| && OwnedFor(ups[i], catalogue, user, sc.country)
          && Suitable(ups[i], sc.requiredCredits, now)
          ensures ups[candidates[a]].expiryDate <= ups[i].expiryDate
        {
          assert i in candidates;
          FirstOfSortedIsLeast(candidates, UP.ByExpiry(ups), usable, i);
        }
      }
      assert candidates[a] in candidates;
      Some(candidates[a])
  }

  // ---------------------------------------------------------------------------
  // Waitlist position

  /** getNextWaitlistPosition: one past the highest position held in the class's
      waitlist, or 1 when no position is held. */
  function NextWaitlistPosition(bs: seq<ClassBooking>, s: ScheduleId): (r: int)
    ensures forall i, p :: 0 <= i < |bs| && CB.HoldsPosition(bs[i], s, p) ==> p < r
    ensures (exists i :: 0 <= i < |bs| && CB.HoldsPosition(bs[i], s, r - 1))
      || (r == 1 && forall i, p :: 0 <= i < |bs| ==> !CB.HoldsPosition(bs[i], s, p))
  {
    CB.FindMaxWaitlistPositionByClassSchedule(bs, s).GetOr(0) + 1
  }

  // ---------------------------------------------------------------------------
  // The credit ledger

  /** deductCreditsFromPackage */
  function Deducted(p: UserPackage, n: int): UserPackage {
    var newCredits := p.remainingCredits - n;
    p.(remainingCredits := newCredits,
       status := if newCredits <= 0 then UserPackageStatus.UsedUp else p.status)
  }

  /** refundCreditsToPackage */
  function Refunded(p: UserPackage, n: int, now: Time): UserPackage {
    var q := p.(remainingCredits := p.remainingCredits + n);
    if q.status == UserPackageStatus.UsedUp && !IsExpired(q, now) then q.(status := UserPackageStatus.Active) else q
  }

  /** A debit lowers the balance by exactly the amount, touches nothing but balance
      and status, and marks the package USED_UP exactly when the new balance is zero
      or below (or it was USED_UP already). */
  lemma DebitMeans(p: UserPackage, n: int)
    ensures Deducted(p, n).remainingCredits == p.remainingCredits - n
    ensures Deducted(p, n).status == UserPackageStatus.UsedUp <==>
      p.remainingCredits - n <= 0 || p.status == UserPackageStatus.UsedUp
    ensures p.remainingCredits - n > 0 ==> Deducted(p, n).status == p.status
    ensures Deducted(p, n) == p.(remainingCredits := p.remainingCredits - n, status := Deducted(p, n).status)
  {
  }

  /** Debiting a package that covers the price keeps its balance within the column
      constraint, and leaves it ACTIVE only while credits remain: the debited package
      is still usable exactly when something is left. */
  lemma DebitOfSuitableKeepsLedgerSound(p: UserPackage, n: int, now: Time)
    requires Suitable(p, n, now)
    ensures CreditsInRange(Deducted(p, n))
    ensures Deducted(p, n).status == UserPackageStatus.Active ==> Deducted(p, n).remainingCredits > 0
    ensures IsActive(Deducted(p, n), now) <==> p.remainingCredits > n
  {
  }

  /** A refund raises the balance by exactly the amount and revives a USED_UP package
      only while it has not expired; any other status is kept. */
  lemma RefundMeans(p: UserPackage, n: int, now: Time)
    ensures Refunded(p, n, now).remainingCredits == p.remainingCredits + n
    ensures Refunded(p, n, now).status ==
      if p.status == UserPackageStatus.UsedUp && !IsExpired(p, now) then UserPackageStatus.Active else p.status
    ensures Refunded(p, n, now) == p.(remainingCredits := p.remainingCredits + n, status := Refunded(p, n, now).status)
  {
  }

  /** Refunding what was just debited from an ACTIVE, unexpired package gives back
      exactly the package as it was, whether or not the debit used it up. */
  lemma DebitThenRefundRestores(p: UserPackage, n: int, now: Time)
    requires p.status == UserPackageStatus.Active && !IsExpired(p, now)
    ensures Refunded(Deducted(p, n), n, now) == p
  {
  }

  /** After expiry the revival no longer happens: a package used up by a debit stays
      USED_UP although its credits come back. */
  lemma RefundAfterExpiryDoesNotRevive(p: UserPackage, n: int, now: Time)
    requires p.status == UserPackageStatus.Active && IsExpired(p, now) && p.remainingCredits - n <= 0
    ensures Refunded(Deducted(p, n), n, now).status == UserPackageStatus.UsedUp
    ensures Refunded(Deducted(p, n), n, now).remainingCredits == p.remainingCredits
  {
  }

  // ---------------------------------------------------------------------------
  // Waitlist compaction

  /** A booking waiting in the queue of class `s`. */
  predicate Queued(b: ClassBooking, s: ScheduleId) {
    b.schedule == s && b.status == BookingStatus.Waitlisted
  }

  /** The loop body of updateWaitlistPositions: a queued booking of the class behind
      the removed position moves up by one. */
  function Shifted(b: ClassBooking, s: ScheduleId, removed: int): ClassBooking {
    if Queued(b, s) && b.waitlistPosition.Some? && b.waitlistPosition.value > removed
    then b.(waitlistPosition := Some(b.waitlistPosition.value - 1))
    else b
  }

  /** updateWaitlistPositions over the whole table; a null removed position leaves it
      as it is. */
  function Compacted(bs: seq<ClassBooking>, s: ScheduleId, removed: Option<int>): seq<ClassBooking> {
    match removed
    case None => bs
    case Some(q) => seq(|bs|, i requires 0 <= i < |bs| => Shifted(bs[i], s, q))
  }

  /** Some queued booking of class `s` holds position `p`. */
  predicate Held(bs: seq<ClassBooking>, s: ScheduleId, p: int) {
    exists i :: 0 <= i < |bs| && CB.HoldsPosition(bs[i], s, p)
  }

  /** The queue of class `s` holds exactly the positions 1..n, one booking each. */
  predicate DenseWaitlist(bs: seq<ClassBooking>, s: ScheduleId, n: int) {
    (forall i :: 0 <= i < |bs| && Queued(bs[i], s) ==>
      bs[i].waitlistPosition.Some? && 1 <= bs[i].waitlistPosition.value <= n)
    && (forall i, j :: 0 <= i < |bs| && 0 <= j < |bs| && i != j && Queued(bs[i], s) && Queued(bs[j], s) ==>
      bs[i].waitlistPosition != bs[j].waitlistPosition)
    && (forall p :: 1 <= p <= n ==> Held(bs, s, p))
  }

  /** Compaction changes only the positions of the class's queued bookings behind the
      removed one, each by exactly one, and never who is queued. */
  lemma CompactionMeans(bs: seq<ClassBooking>, s: ScheduleId, removed: Option<int>)
    ensures |Compacted(bs, s, removed)| == |bs|
    ensures removed.None? ==> Compacted(bs, s, removed) == bs
    ensures forall i :: 0 <= i < |bs| ==>
      var c := Compacted(bs, s, removed)[i];
      && c == bs[i].(waitlistPosition := c.waitlistPosition)
      && (if removed.Some? && Queued(bs[i], s) && bs[i].waitlistPosition.Some?
             && bs[i].waitlistPosition.value > removed.value
          then c.waitlistPosition == Some(bs[i].waitlistPosition.value - 1)
          else c == bs[i])
  {
  }

  /** Taking the booking at position q out of a dense queue 1..n (it is promoted or
      cancelled) and compacting past q leaves a dense queue 1..n-1. */
  lemma CompactionClosesGap(bs: seq<ClassBooking>, s: ScheduleId, n: int, k: nat, left: ClassBooking)
    requires DenseWaitlist(bs, s, n)
    requires k < |bs| && Queued(bs[k], s)
    requires !Queued(left, s)
    ensures DenseWaitlist(Compacted(bs[k := left], s, bs[k].waitlistPosition), s, n - 1)
  {
    var q := bs[k].waitlistPosition.value;
    var bs1 := bs[k := left];
    var c := Compacted(bs1, s, bs[k].waitlistPosition);
    assert |c| == |bs|;
    forall i | 0 <= i < |c| && Queued(c[i], s)
      ensures c[i].waitlistPosition.Some? && 1 <= c[i].waitlistPosition.value <= n - 1
    {
      assert i != k && Queued(bs[i], s) && c[i] == Shifted(bs[i], s, q);
      assert bs[i].waitlistPosition != bs[k].waitlistPosition;
    }
    forall i, j | 0 <= i < |c| && 0 <= j < |c| && i != j && Queued(c[i], s) && Queued(c[j], s)
      ensures c[i].waitlistPosition != c[j].waitlistPosition
    {
      assert i != k && j != k;
      assert c[i] == Shifted(bs[i], s, q) && c[j] == Shifted(bs[j], s, q);
      assert bs[i].waitlistPosition != bs[j].waitlistPosition;
      assert bs[i].waitlistPosition != bs[k].waitlistPosition;
      assert bs[j].waitlistPosition != bs[k].waitlistPosition;
    }
    forall p | 1 <= p <= n - 1
      ensures Held(c, s, p)
    {
      var p0 := if p < q then p else p + 1;
      assert Held(bs, s, p0);
      var j :| 0 <= j < |bs| && CB.HoldsPosition(bs[j], s, p0);
      assert j != k;
      assert c[j] == Shifted(bs[j], s, q);
      assert CB.HoldsPosition(c[j], s, p);
    }
  }

  // ---------------------------------------------------------------------------
  // Waitlist promotion

  /** Every booking refers to an existing user package. */
  predicate PackagesExist(ups: seq<UserPackage>, bs: seq<ClassBooking>) {
    forall i :: 0 <= i < |bs| ==> bs[i].userPackage < |ups|
  }

  /** The package test of promoteFromWaitlist. */
  predicate CanPromote(p: UserPackage, required: int, now: Time) {
    IsActive(p, now) && p.remainingCredits >= required
  }

  /** A waitlisted booking promoted to BOOKED, its position cleared. */
  function PromotedEntry(b: ClassBooking): ClassBooking {
    b.(status := BookingStatus.Booked, waitlistPosition := None)
  }

  /** A waitlisted booking dropped because its package cannot pay. */
  function SkippedEntry(b: ClassBooking, now: Time): ClassBooking {
    b.(status := BookingStatus.Cancelled, cancellationTime := Some(now))
  }

  /** The rows in the queue of class `s`: the measure that shrinks at every step. */
  function QueueRows(bs: seq<ClassBooking>, s: ScheduleId): set<nat> {
    Rows(bs, CB.OfScheduleWithStatus(s, BookingStatus.Waitlisted))
  }

  /** promoteFromWaitlist: take the head of the queue (lowest position); promote it
      and debit its package if the package is active and covers the price, otherwise
      cancel it and try the next one. Positions are not compacted: the position is
      cleared before it is handed to updateWaitlistPositions, which then does
      nothing. */
  function Promoted(ups: seq<UserPackage>, bs: seq<ClassBooking>, s: ScheduleId, required: int, now: Time)
    : (r: (seq<UserPackage>, seq<ClassBooking>))
    requires PackagesExist(ups, bs)
    ensures |r.0| == |ups| && |r.1| == |bs|
    decreases |QueueRows(bs, s)|
  {
    match CB.FindFirstByClassScheduleAndStatusOrderByWaitlistPositionAsc(bs, s, BookingStatus.Waitlisted)
    case None => (ups, bs)
    case Some(k) =>
      var b := bs[k];
      var p := ups[b.userPackage];
      if CanPromote(p, required, now) then
        (ups[b.userPackage := Deducted(p, required)], bs[k := PromotedEntry(b)])
      else
        RowsUpdate(bs, CB.OfScheduleWithStatus(s, BookingStatus.Waitlisted), k, SkippedEntry(b, now));
        assert k in QueueRows(bs, s);
        Promoted(ups, bs[k := SkippedEntry(b, now)], s, required, now)
  }

  /** Skipping the head of the queue shrinks the queue, and promotion from the table
      with the head cancelled gives the same result. */
  lemma SkipStep(ups: seq<UserPackage>, bs: seq<ClassBooking>, s: ScheduleId, required: int, now: Time, k: nat)
    requires PackagesExist(ups, bs)
    requires CB.FindFirstByClassScheduleAndStatusOrderByWaitlistPositionAsc(bs, s, BookingStatus.Waitlisted) == Some(k)
    requires !CanPromote(ups[bs[k].userPackage], required, now)
    ensures var bs1 := bs[k := SkippedEntry(bs[k], now)];
      && PackagesExist(ups, bs1)
      && |QueueRows(bs1, s)| < |QueueRows(bs, s)|
      && Promoted(ups, bs, s, required, now) == Promoted(ups, bs1, s, required, now)
  {
    RowsUpdate(bs, CB.OfScheduleWithStatus(s, BookingStatus.Waitlisted), k, SkippedEntry(bs[k], now));
    assert k in QueueRows(bs, s);
  }

  /** Promotion touches only queued bookings of the class: each one it changes is
      either promoted or cancelled at `now` because its package could not pay. */
  lemma {:induction false} PromotionTouchesOnlyQueue(ups: seq<UserPackage>, bs: seq<ClassBooking>, s: ScheduleId,
                                                     required: int, now: Time)
    requires PackagesExist(ups, bs)
    ensures var (ups', bs') := Promoted(ups, bs, s, required, now);
      && |ups'| == |ups| && |bs'| == |bs|
      && forall i :: 0 <= i < |bs| && bs'[i] != bs[i] ==>
        Queued(bs[i], s)
        && (bs'[i] == PromotedEntry(bs[i])
            || (bs'[i] == SkippedEntry(bs[i], now) && !CanPromote(ups[bs[i].userPackage], required, now)))
    decreases |QueueRows(bs, s)|
  {
    match CB.FindFirstByClassScheduleAndStatusOrderByWaitlistPositionAsc(bs, s, BookingStatus.Waitlisted)
    case None =>
    case Some(k) =>
      var b := bs[k];
      if !CanPromote(ups[b.userPackage], required, now) {
        var bs1 := bs[k := SkippedEntry(b, now)];
        SkipStep(ups, bs, s, required, now, k);
        PromotionTouchesOnlyQueue(ups, bs1, s, required, now);
      }
  }

  /** At most one booking is promoted per call. */
  lemma {:induction false} PromotionPromotesAtMostOne(ups: seq<UserPackage>, bs: seq<ClassBooking>, s: ScheduleId,
                                                      required: int, now: Time)
    requires PackagesExist(ups, bs)
    ensures var (ups', bs') := Promoted(ups, bs, s, required, now);
      forall i, j :: (0 <= i < |bs| && 0 <= j < |bs| && Queued(bs[i], s) && Queued(bs[j], s)
        && bs'[i].status == BookingStatus.Booked && bs'[j].status == BookingStatus.Booked) ==> i == j
    decreases |QueueRows(bs, s)|
  {
    PromotionTouchesOnlyQueue(ups, bs, s, required, now);
    match CB.FindFirstByClassScheduleAndStatusOrderByWaitlistPositionAsc(bs, s, BookingStatus.Waitlisted)
    case None =>
    case Some(k) =>
      var b := bs[k];
      if !CanPromote(ups[b.userPackage], required, now) {
        var bs1 := bs[k := SkippedEntry(b, now)];
        SkipStep(ups, bs, s, required, now, k);
        PromotionTouchesOnlyQueue(ups, bs1, s, required, now);
        PromotionPromotesAtMostOne(ups, bs1, s, required, now);
      }
  }

  /** No booking of class `s` is waiting any more. */
  predicate QueueEmpty(bs: seq<ClassBooking>, s: ScheduleId) {
    forall i :: 0 <= i < |bs| ==> !Queued(bs[i], s)
  }

  /** Row `i` was waiting, its package could pay, it is now BOOKED and exactly its
      package lost the class's price. */
  predicate PaidPromotion(ups: seq<UserPackage>, bs: seq<ClassBooking>, ups': seq<UserPackage>, bs': seq<ClassBooking>,
                          s: ScheduleId, required: int, now: Time, i: int) {
    0 <= i < |bs| && i < |bs'| && Queued(bs[i], s) && bs'[i] == PromotedEntry(bs[i])
    && bs[i].userPackage < |ups| && CanPromote(ups[bs[i].userPackage], required, now)
    && ups' == ups[bs[i].userPackage := Deducted(ups[bs[i].userPackage], required)]
  }

  /** Either a queued booking whose package could pay was promoted and exactly its
      package was debited by the class's price, or the queue has been used up and no
      balance moved. */
  lemma {:induction false} PromotionOutcome(ups: seq<UserPackage>, bs: seq<ClassBooking>, s: ScheduleId,
                                            required: int, now: Time)
    requires PackagesExist(ups, bs)
    ensures var (ups', bs') := Promoted(ups, bs, s, required, now);
      (ups' == ups && QueueEmpty(bs', s)) || exists i :: PaidPromotion(ups, bs, ups', bs', s, required, now, i)
    decreases |QueueRows(bs, s)|
  {
    match CB.FindFirstByClassScheduleAndStatusOrderByWaitlistPositionAsc(bs, s, BookingStatus.Waitlisted)
    case None =>
    case Some(k) =>
      var b := bs[k];
      if CanPromote(ups[b.userPackage], required, now) {
        var (ups', bs') := Promoted(ups, bs, s, required, now);
        assert PaidPromotion(ups, bs, ups', bs', s, required, now, k);
      } else {
        var bs1 := bs[k := SkippedEntry(b, now)];
        SkipStep(ups, bs, s, required, now, k);
        PromotionOutcome(ups, bs1, s, required, now);
        var (ups', bs') := Promoted(ups, bs1, s, required, now);
        assert Promoted(ups, bs, s, required, now) == (ups', bs');
        if i :| PaidPromotion(ups, bs1, ups', bs', s, required, now, i) {
          assert i != k;
          assert PaidPromotion(ups, bs, ups', bs', s, required, now, i);
        }
      }
  }

  /** The promoted booking was at the head of the queue: no booking still waiting
      afterwards had a lower position. */
  lemma {:induction false} PromotionIsFirstComeFirstServed(ups: seq<UserPackage>, bs: seq<ClassBooking>,
                                                           s: ScheduleId, required: int, now: Time)
    requires PackagesExist(ups, bs)
    ensures var (ups', bs') := Promoted(ups, bs, s, required, now);
      forall i, j :: (0 <= i < |bs| && 0 <= j < |bs| && Queued(bs[i], s) && bs'[i].status == BookingStatus.Booked
        && Queued(bs[j], s) && bs'[j] == bs[j]) ==> CB.PositionKey(bs[i]) <= CB.PositionKey(bs[j])
    decreases |QueueRows(bs, s)|
  {
    PromotionTouchesOnlyQueue(ups, bs, s, required, now);
    match CB.FindFirstByClassScheduleAndStatusOrderByWaitlistPositionAsc(bs, s, BookingStatus.Waitlisted)
    case None =>
    case Some(k) =>
      var b := bs[k];
      if !CanPromote(ups[b.userPackage], required, now) {
        var bs1 := bs[k := SkippedEntry(b, now)];
        SkipStep(ups, bs, s, required, now, k);
        PromotionTouchesOnlyQueue(ups, bs1, s, required, now);
        PromotionIsFirstComeFirstServed(ups, bs1, s, required, now);
      }
  }

  /** Promotion never takes a balance below zero: the only debit is made from a
      package that covers the price. */
  lemma PromotionKeepsCreditsInRange(ups: seq<UserPackage>, bs: seq<ClassBooking>, s: ScheduleId,
                                     required: int, now: Time)
    requires PackagesExist(ups, bs)
    requires forall i :: 0 <= i < |ups| ==> CreditsInRange(ups[i])
    ensures var ups' := Promoted(ups, bs, s, required, now).0;
      forall i :: 0 <= i < |ups'| ==> CreditsInRange(ups'[i])
  {
    PromotionOutcome(ups, bs, s, required, now);
    var (ups', bs') := Promoted(ups, bs, s, required, now);
    if j :| PaidPromotion(ups, bs, ups', bs', s, required, now, j) {
      DebitOfSuitableKeepsLedgerSound(ups[bs[j].userPackage], required, now);
    }
  }

  // ---------------------------------------------------------------------------
  // Settling finished classes

  /** The filter of findByStatusAndEndTimeBefore(SCHEDULED, now): a class still
      SCHEDULED although it has ended. */
  predicate Ended(sc: ClassSchedule, now: Time) {
    sc.status == ClassStatus.Scheduled && sc.endTime < now
  }

  /** What a booking of a finished class becomes: a WAITLISTED one is CANCELLED at
      now, a BOOKED one (never checked in) is a NO_SHOW, any other is kept. */
  function Settled(b: ClassBooking, now: Time): ClassBooking {
    if b.status == BookingStatus.Waitlisted then
      b.(status := BookingStatus.Cancelled, cancellationTime := Some(now))
    else if b.status == BookingStatus.Booked then
      b.(status := BookingStatus.NoShow)
    else b
  }

  /** The schedules table after processCompletedClasses. */
  function ClosedSchedules(scs: seq<ClassSchedule>, now: Time): seq<ClassSchedule> {
    seq(|scs|, i requires 0 <= i < |scs| =>
      if Ended(scs[i], now) then scs[i].(status := ClassStatus.Completed) else scs[i])
  }

  /** The booking belongs to a class the pass closes. */
  predicate OfEndedClass(b: ClassBooking, scs: seq<ClassSchedule>, now: Time) {
    b.schedule < |scs| && Ended(scs[b.schedule], now)
  }

  /** The bookings table after processCompletedClasses. */
  function SettledBookings(bs: seq<ClassBooking>, scs: seq<ClassSchedule>, now: Time): seq<ClassBooking> {
    seq(|bs|, i requires 0 <= i < |bs| => if OfEndedClass(bs[i], scs, now) then Settled(bs[i], now) else bs[i])
  }

  /** After the pass every class it closed is COMPLETED and none of its bookings
      still holds or waits for a seat; classes it did not close and their bookings are
      untouched; a booking of a closed class keeps its owner, class and package. */
  lemma CompletionSettlesClasses(scs: seq<ClassSchedule>, bs: seq<ClassBooking>, now: Time)
    ensures var scs', bs' := ClosedSchedules(scs, now), SettledBookings(bs, scs, now);
      && |scs'| == |scs| && |bs'| == |bs|
      && (forall c :: 0 <= c < |scs| ==>
            if Ended(scs[c], now) then scs'[c] == scs[c].(status := ClassStatus.Completed) else scs'[c] == scs[c])
      && (forall i :: 0 <= i < |bs| && OfEndedClass(bs[i], scs, now) ==>
            bs'[i].status != BookingStatus.Booked && bs'[i].status != BookingStatus.Waitlisted
            && bs'[i].user == bs[i].user && bs'[i].schedule == bs[i].schedule
            && bs'[i].userPackage == bs[i].userPackage
            && (bs[i].status == BookingStatus.Waitlisted ==> bs'[i].cancellationTime == Some(now)))
      && (forall i :: 0 <= i < |bs| && !OfEndedClass(bs[i], scs, now) ==> bs'[i] == bs[i])
  {
  }

  /** Running the pass a second time at the same moment changes nothing: the classes
      it closed are no longer SCHEDULED and so are not selected again. */
  lemma {:induction false} CompletionIsIdempotent(scs: seq<ClassSchedule>, bs: seq<ClassBooking>, now: Time)
    ensures ClosedSchedules(ClosedSchedules(scs, now), now) == ClosedSchedules(scs, now)
    ensures SettledBookings(SettledBookings(bs, scs, now), ClosedSchedules(scs, now), now) == SettledBookings(bs, scs, now)
  {
    var scs' := ClosedSchedules(scs, now);
    assert forall c :: 0 <= c < |scs'| ==> !Ended(scs'[c], now);
  }

  // ---------------------------------------------------------------------------
  // Cancellation as intended

  /** The early-cancellation test: strictly more than the configured hours before
      class start. */
  predicate EarlyCancellation(sc: ClassSchedule, now: Time, cfg: Settings) {
    now < sc.startTime - cfg.cancellationHours * MinutesPerHour
  }

  /** A booking cancelled at now. */
  function CancelledEntry(b: ClassBooking, now: Time): ClassBooking {
    b.(status := BookingStatus.Cancelled, cancellationTime := Some(now))
  }

  /** The ledger after the refund step of the intended cancellation: an early
      cancellation of a BOOKED seat gives the class's price back to the package that
      paid for it; any other cancellation leaves the ledger alone. */
  function RefundedLedger(ups: seq<UserPackage>, bs: seq<ClassBooking>, scs: seq<ClassSchedule>,
                          k: BookingId, now: Time, cfg: Settings): (r: seq<UserPackage>)
    requires k < |bs| && bs[k].schedule < |scs| && PackagesExist(ups, bs)
    ensures |r| == |ups| && forall i :: 0 <= i < |ups| && i != bs[k].userPackage ==> r[i] == ups[i]
    ensures r[bs[k].userPackage].remainingCredits == ups[bs[k].userPackage].remainingCredits
      + (if bs[k].status == BookingStatus.Booked && EarlyCancellation(scs[bs[k].schedule], now, cfg)
         then scs[bs[k].schedule].requiredCredits else 0)
  {
    var b := bs[k];
    var sc := scs[b.schedule];
    if b.status == BookingStatus.Booked && EarlyCancellation(sc, now, cfg) then
      RefundMeans(ups[b.userPackage], sc.requiredCredits, now);
      ups[b.userPackage := Refunded(ups[b.userPackage], sc.requiredCredits, now)]
    else ups
  }

  /** cancelBooking with the status tested before it is overwritten: a BOOKED
      booking's credits come back when the cancellation is early and the head of the
      queue is promoted; a WAITLISTED booking's place is closed up. */
  function IntendedCancellation(ups: seq<UserPackage>, bs: seq<ClassBooking>, scs: seq<ClassSchedule>,
                                k: BookingId, now: Time, cfg: Settings): (r: (seq<UserPackage>, seq<ClassBooking>))
    requires k < |bs| && bs[k].schedule < |scs| && PackagesExist(ups, bs)
    ensures |r.0| == |ups| && |r.1| == |bs|
  {
    var b := bs[k];
    var sc := scs[b.schedule];
    var cancelled := bs[k := CancelledEntry(b, now)];
    if b.status == BookingStatus.Booked then
      Promoted(RefundedLedger(ups, bs, scs, k, now, cfg), cancelled, b.schedule, sc.requiredCredits, now)
    else if b.status == BookingStatus.Waitlisted then
      (ups, Compacted(cancelled, b.schedule, b.waitlistPosition))
    else
      (ups, cancelled)
  }

  /** Early cancellation of a BOOKED booking in a class nobody waits for gives the
      class's price back to the package it was paid from, and nothing else moves; a
      late one moves no credits. */
  lemma IntendedCancellationRefundsEarly(ups: seq<UserPackage>, bs: seq<ClassBooking>, scs: seq<ClassSchedule>,
                                         k: BookingId, now: Time, cfg: Settings)
    requires k < |bs| && bs[k].schedule < |scs| && PackagesExist(ups, bs)
    requires bs[k].status == BookingStatus.Booked && QueueEmpty(bs, bs[k].schedule)
    ensures var sc := scs[bs[k].schedule];
      var pk := bs[k].userPackage;
      IntendedCancellation(ups, bs, scs, k, now, cfg).0 ==
        if EarlyCancellation(sc, now, cfg) then ups[pk := Refunded(ups[pk], sc.requiredCredits, now)] else ups
    ensures IntendedCancellation(ups, bs, scs, k, now, cfg).1 == bs[k := CancelledEntry(bs[k], now)]
  {
    var s := bs[k].schedule;
    var cancelled := bs[k := CancelledEntry(bs[k], now)];
    assert QueueEmpty(cancelled, s);
  }

  /** Cancelling a BOOKED seat in a class with any queue: the booking ends CANCELLED
      at now, the refund step returns the price to the package that paid when the
      cancellation is early and nothing when it is late, and after that the only
      balance that moves is the debit of the queued booking promoted into the freed
      seat, which no queued booking left waiting precedes; when no queued booking's
      package can pay, the queue ends empty and the
      ledger is the refunded one. */
  lemma {:induction false} IntendedCancellationRefundsThenPromotes(ups: seq<UserPackage>, bs: seq<ClassBooking>,
                                                                   scs: seq<ClassSchedule>, k: BookingId, now: Time,
                                                                   cfg: Settings)
    requires k < |bs| && bs[k].schedule < |scs| && PackagesExist(ups, bs)
    requires bs[k].status == BookingStatus.Booked
    ensures var s := bs[k].schedule;
      var refunded := RefundedLedger(ups, bs, scs, k, now, cfg);
      var cancelled := bs[k := CancelledEntry(bs[k], now)];
      var (ups', bs') := IntendedCancellation(ups, bs, scs, k, now, cfg);
      && bs'[k] == CancelledEntry(bs[k], now)
      && ((ups' == refunded && QueueEmpty(bs', s))
          || exists i ::
               && PaidPromotion(refunded, cancelled, ups', bs', s, scs[s].requiredCredits, now, i)
               && forall j :: 0 <= j < |cancelled| && Queued(cancelled[j], s) && bs'[j] == cancelled[j]
                    ==> CB.PositionKey(cancelled[i]) <= CB.PositionKey(cancelled[j]))
  {
    var s := bs[k].schedule;
    var refunded := RefundedLedger(ups, bs, scs, k, now, cfg);
    var cancelled := bs[k := CancelledEntry(bs[k], now)];
    assert PackagesExist(refunded, cancelled);
    PromotionOutcome(refunded, cancelled, s, scs[s].requiredCredits, now);
    PromotionTouchesOnlyQueue(refunded, cancelled, s, scs[s].requiredCredits, now);
    PromotionIsFirstComeFirstServed(refunded, cancelled, s, scs[s].requiredCredits, now);
  }

  /** Together with the debit made when the seat was booked, an early cancellation
      gives the member back the package exactly as it was before booking. */
  lemma IntendedCancellationUndoesBooking(ups: seq<UserPackage>, bs: seq<ClassBooking>, scs: seq<ClassSchedule>,
                                          k: BookingId, now: Time, cfg: Settings, before: UserPackage)
    requires k < |bs| && bs[k].schedule < |scs| && PackagesExist(ups, bs)
    requires bs[k].status == BookingStatus.Booked && QueueEmpty(bs, bs[k].schedule)
    requires EarlyCancellation(scs[bs[k].schedule], now, cfg)
    requires before.status == UserPackageStatus.Active && !IsExpired(before, now)
    requires ups[bs[k].userPackage] == Deducted(before, scs[bs[k].schedule].requiredCredits)
    ensures IntendedCancellation(ups, bs, scs, k, now, cfg).0 == ups[bs[k].userPackage := before]
  {
    IntendedCancellationRefundsEarly(ups, bs, scs, k, now, cfg);
    DebitThenRefundRestores(before, scs[bs[k].schedule].requiredCredits, now);
  }

  /** Cancelling a waitlisted booking out of a dense queue 1..n leaves a dense queue
      1..n-1. */
  lemma IntendedCancellationKeepsQueueDense(ups: seq<UserPackage>, bs: seq<ClassBooking>, scs: seq<ClassSchedule>,
                                            k: BookingId, now: Time, cfg: Settings, n: int)
    requires k < |bs| && bs[k].schedule < |scs| && PackagesExist(ups, bs)
    requires bs[k].status == BookingStatus.Waitlisted && DenseWaitlist(bs, bs[k].schedule, n)
    ensures DenseWaitlist(IntendedCancellation(ups, bs, scs, k, now, cfg).1, bs[k].schedule, n - 1)
  {
    CompactionClosesGap(bs, bs[k].schedule, n, k, CancelledEntry(bs[k], now));
  }

  // ---------------------------------------------------------------------------
  // Promotion as intended

  /** Compaction never changes which bookings wait in a class's queue. */
  lemma CompactionKeepsQueue(bs: seq<ClassBooking>, s: ScheduleId, removed: Option<int>)
    ensures QueueRows(Compacted(bs, s, removed), s) == QueueRows(bs, s)
  {
  }

  /** promoteFromWaitlist with the removed position handed to updateWaitlistPositions
      before it is cleared, both when the head is promoted and when it is dropped. */
  function PromotedCompacting(ups: seq<UserPackage>, bs: seq<ClassBooking>, s: ScheduleId, required: int, now: Time)
    : (r: (seq<UserPackage>, seq<ClassBooking>))
    requires PackagesExist(ups, bs)
    ensures |r.0| == |ups| && |r.1| == |bs|
    decreases |QueueRows(bs, s)|
  {
    match CB.FindFirstByClassScheduleAndStatusOrderByWaitlistPositionAsc(bs, s, BookingStatus.Waitlisted)
    case None => (ups, bs)
    case Some(k) =>
      var b := bs[k];
      var p := ups[b.userPackage];
      if CanPromote(p, required, now) then
        (ups[b.userPackage := Deducted(p, required)], Compacted(bs[k := PromotedEntry(b)], s, b.waitlistPosition))
      else
        var bs1 := Compacted(bs[k := SkippedEntry(b, now)], s, b.waitlistPosition);
        RowsUpdate(bs, CB.OfScheduleWithStatus(s, BookingStatus.Waitlisted), k, SkippedEntry(b, now));
        CompactionKeepsQueue(bs[k := SkippedEntry(b, now)], s, b.waitlistPosition);
        assert k in QueueRows(bs, s);
        PromotedCompacting(ups, bs1, s, required, now)
  }

  /** When the head of the queue cannot pay, compacting promotion drops it, closes
      its place and carries on with a strictly shorter queue. */
  lemma CompactingSkipStep(ups: seq<UserPackage>, bs: seq<ClassBooking>, s: ScheduleId, required: int, now: Time, k: nat)
    requires PackagesExist(ups, bs)
    requires CB.FindFirstByClassScheduleAndStatusOrderByWaitlistPositionAsc(bs, s, BookingStatus.Waitlisted) == Some(k)
    requires !CanPromote(ups[bs[k].userPackage], required, now)
    ensures var bs1 := Compacted(bs[k := SkippedEntry(bs[k], now)], s, bs[k].waitlistPosition);
      && PackagesExist(ups, bs1)
      && |QueueRows(bs1, s)| < |QueueRows(bs, s)|
      && PromotedCompacting(ups, bs, s, required, now) == PromotedCompacting(ups, bs1, s, required, now)
  {
    var b := bs[k];
    RowsUpdate(bs, CB.OfScheduleWithStatus(s, BookingStatus.Waitlisted), k, SkippedEntry(b, now));
    CompactionKeepsQueue(bs[k := SkippedEntry(b, now)], s, b.waitlistPosition);
    assert k in QueueRows(bs, s);
  }

  /** The queue of class `s` is dense for some length no greater than `n`. */
  ghost predicate DenseUpTo(bs: seq<ClassBooking>, s: ScheduleId, n: int) {
    exists m :: m <= n && DenseWaitlist(bs, s, m)
  }

  /** With compaction the queue stays dense through promotion: from a queue holding
      1..n it leaves a queue holding 1..m for some m <= n. */
  lemma {:induction false} PromotionWithCompactionKeepsQueueDense(ups: seq<UserPackage>, bs: seq<ClassBooking>,
                                                                  s: ScheduleId, required: int, now: Time, n: int)
    requires PackagesExist(ups, bs) && DenseWaitlist(bs, s, n)
    ensures DenseUpTo(PromotedCompacting(ups, bs, s, required, now).1, s, n)
    decreases |QueueRows(bs, s)|
  {
    var first := CB.FindFirstByClassScheduleAndStatusOrderByWaitlistPositionAsc(bs, s, BookingStatus.Waitlisted);
    if first.None? {
      assert PromotedCompacting(ups, bs, s, required, now).1 == bs;
      assert DenseWaitlist(bs, s, n);
    } else {
      var k := first.value;
      var b := bs[k];
      if CanPromote(ups[b.userPackage], required, now) {
        CompactionClosesGap(bs, s, n, k, PromotedEntry(b));
        assert PromotedCompacting(ups, bs, s, required, now).1
            == Compacted(bs[k := PromotedEntry(b)], s, b.waitlistPosition);
        assert DenseWaitlist(PromotedCompacting(ups, bs, s, required, now).1, s, n - 1);
      } else {
        var bs1 := Compacted(bs[k := SkippedEntry(b, now)], s, b.waitlistPosition);
        CompactionClosesGap(bs, s, n, k, SkippedEntry(b, now));
        CompactingSkipStep(ups, bs, s, required, now, k);
        PromotionWithCompactionKeepsQueueDense(ups, bs1, s, required, now, n - 1);
        var m :| m <= n - 1 && DenseWaitlist(PromotedCompacting(ups, bs1, s, required, now).1, s, m);
        assert DenseWaitlist(PromotedCompacting(ups, bs, s, required, now).1, s, m);
      }
    }
  }

  /** Two bookings waiting at positions 1 and 2 form a dense queue. */
  lemma TwoWaitingAreDense(bs: seq<ClassBooking>, s: ScheduleId)
    requires |bs| == 2 && CB.HoldsPosition(bs[0], s, 1) && CB.HoldsPosition(bs[1], s, 2)
    ensures DenseWaitlist(bs, s, 2)
  {
    assert Held(bs, s, 1) && Held(bs, s, 2);
  }

  /** Of two bookings waiting for class `s`, the one at the lower position is the
      head of the queue. */
  lemma HeadOfTwoWaiting(bs: seq<ClassBooking>, s: ScheduleId)
    requires |bs| == 2 && Queued(bs[0], s) && Queued(bs[1], s)
    requires CB.PositionKey(bs[0]) < CB.PositionKey(bs[1])
    ensures CB.FindFirstByClassScheduleAndStatusOrderByWaitlistPositionAsc(bs, s, BookingStatus.Waitlisted) == Some(0)
  {
    var first := CB.FindFirstByClassScheduleAndStatusOrderByWaitlistPositionAsc(bs, s, BookingStatus.Waitlisted);
    assert first.Some?;
    assert CB.PositionKey(bs[first.value]) <= CB.PositionKey(bs[0]);
  }

  /** As the service performs it, promotion leaves a hole at the front of the queue:
      with two members waiting at positions 1 and 2, the first is promoted and the
      second still waits at position 2 while position 1 is empty. */
  lemma PromotionAsWrittenLeavesGap(ups: seq<UserPackage>, bs: seq<ClassBooking>)
    requires ups == [UserPackage(7, 0, 10, 0, 100000, 50, UserPackageStatus.Active)]
    requires bs == [ClassBooking(7, 0, 0, BookingStatus.Waitlisted, 0, None, None, Some(1)),
                    ClassBooking(8, 0, 0, BookingStatus.Waitlisted, 0, None, None, Some(2))]
    ensures PackagesExist(ups, bs) && DenseWaitlist(bs, 0, 2)
    ensures var bs' := Promoted(ups, bs, 0, 1, 1000).1;
      bs'[1] == bs[1] && !Held(bs', 0, 1) && Held(bs', 0, 2)
  {
    assert CB.HoldsPosition(bs[0], 0, 1) && CB.HoldsPosition(bs[1], 0, 2);
    TwoWaitingAreDense(bs, 0);
    HeadOfTwoWaiting(bs, 0);
    assert CanPromote(ups[0], 1, 1000);
    var bs' := Promoted(ups, bs, 0, 1, 1000).1;
    assert bs' == bs[0 := PromotedEntry(bs[0])];
    assert CB.HoldsPosition(bs'[1], 0, 2);
    assert !CB.HoldsPosition(bs'[0], 0, 1) && !CB.HoldsPosition(bs'[1], 0, 1);
  }

  // ---------------------------------------------------------------------------
  // Booking a class

  /** validateClassBookable: SCHEDULED, not yet started and more than the cut-off
      before its start. */
  predicate Bookable(sc: ClassSchedule, now: Time) {
    sc.status == ClassStatus.Scheduled && now <= sc.startTime - BookingCutoffMinutes
  }

  /** Some package of the member for the country can pay for the class. */
  predicate CanPay(ups: seq<UserPackage>, catalogue: seq<Package>, user: UserId, sc: ClassSchedule, now: Time) {
    exists i :: 0 <= i < |ups| && OwnedFor(ups[i], catalogue, user, sc.country) && Suitable(ups[i], sc.requiredCredits, now)
  }

  /** The checks bookClass makes before it takes the lock, in the order it makes
      them; success names the package that pays. */
  function ValidateBooking(catalogue: seq<Package>, ups: seq<UserPackage>, scs: seq<ClassSchedule>,
                           bs: seq<ClassBooking>, user: UserId, s: ScheduleId, now: Time)
    : (r: Result<UserPackageId, ServiceError>)
    ensures r.Success? <==> (s < |scs| && Bookable(scs[s], now) && !HasTimeConflict(bs, scs, user, scs[s])
      && CanPay(ups, catalogue, user, scs[s], now))
    ensures r.Success? ==> (s < |scs| && r.value < |ups| && OwnedFor(ups[r.value], catalogue, user, scs[s].country)
      && Suitable(ups[r.value], scs[s].requiredCredits, now))
    ensures r == Failure(ScheduleNotFound) <==> s >= |scs|
    ensures r == Failure(NotBookable) <==> (s < |scs| && scs[s].status != ClassStatus.Scheduled)
    ensures r == Failure(AlreadyStarted) <==> (s < |scs| && scs[s].status == ClassStatus.Scheduled
      && now > scs[s].startTime)
    ensures r == Failure(BookingClosed) <==> (s < |scs| && scs[s].status == ClassStatus.Scheduled
      && scs[s].startTime - BookingCutoffMinutes < now <= scs[s].startTime)
    ensures r == Failure(TimeConflict) <==> (s < |scs| && Bookable(scs[s], now) && HasTimeConflict(bs, scs, user, scs[s]))
  {
    if s >= |scs| then Failure(ScheduleNotFound)
    else
      var sc := scs[s];
      if sc.status != ClassStatus.Scheduled then Failure(NotBookable)
      else if now > sc.startTime then Failure(AlreadyStarted)
      else if now > sc.startTime - BookingCutoffMinutes then Failure(BookingClosed)
      else if HasTimeConflict(bs, scs, user, sc) then Failure(TimeConflict)
      else
        match FindSuitableUserPackage(ups, catalogue, user, sc, now)
        case None => Failure(NoSuitablePackage)
        case Some(p) => Success(p)
  }

  /** The package a successful validation names is the member's suitable package
      for the country that expires first. */
  lemma ValidationPicksSoonestExpiry(catalogue: seq<Package>, ups: seq<UserPackage>, scs: seq<ClassSchedule>,
                                     bs: seq<ClassBooking>, user: UserId, s: ScheduleId, now: Time, i: nat)
    requires ValidateBooking(catalogue, ups, scs, bs, user, s, now).Success?
    requires i < |ups| && OwnedFor(ups[i], catalogue, user, scs[s].country) && Suitable(ups[i], scs[s].requiredCredits, now)
    ensures ups[ValidateBooking(catalogue, ups, scs, bs, user, s, now).value].expiryDate <= ups[i].expiryDate
  {
  }

  /** Seats held in class `s`. */
  function BookedCount(bs: seq<ClassBooking>, s: ScheduleId): nat {
    CB.CountByClassScheduleAndStatus(bs, s, BookingStatus.Booked)
  }

  /** Saving one more booking raises the seat count of its class by one exactly
      when it is BOOKED. */
  lemma BookedCountAppend(bs: seq<ClassBooking>, s: ScheduleId, v: ClassBooking)
    ensures BookedCount(bs + [v], s) == BookedCount(bs, s) + (if v.schedule == s && v.status == BookingStatus.Booked then 1 else 0)
  {
    var p := CB.OfScheduleWithStatus(s, BookingStatus.Booked);
    SelectCount(bs, p);
    SelectCount(bs + [v], p);
    RowsAppend(bs, p, v);
    assert |bs| !in Rows(bs, p);
  }

  /** The capacity re-check made under the lock. */
  predicate Full(bs: seq<ClassBooking>, sc: ClassSchedule, s: ScheduleId) {
    BookedCount(bs, s) >= sc.maxCapacity
  }

  /** The booking bookClass saves: WAITLISTED at the next position when the class is
      full, BOOKED otherwise. */
  function AdmittedBooking(bs: seq<ClassBooking>, sc: ClassSchedule, s: ScheduleId, user: UserId,
                           p: UserPackageId, now: Time): ClassBooking
  {
    if Full(bs, sc, s) then
      ClassBooking(user, s, p, BookingStatus.Waitlisted, now, None, None, Some(NextWaitlistPosition(bs, s)))
    else
      ClassBooking(user, s, p, BookingStatus.Booked, now, None, None, None)
  }

  /** The ledger after bookClass: a seat is paid for at once, a waitlist place is
      not. */
  function ChargedPackages(ups: seq<UserPackage>, bs: seq<ClassBooking>, sc: ClassSchedule, s: ScheduleId,
                           p: UserPackageId): seq<UserPackage>
    requires p < |ups|
  {
    if Full(bs, sc, s) then ups else ups[p := Deducted(ups[p], sc.requiredCredits)]
  }

  /** A class never holds more seats than its capacity: admission gives a seat only
      while one is free, and otherwise queues the request behind every position
      already held. */
  lemma AdmissionRespectsCapacity(bs: seq<ClassBooking>, sc: ClassSchedule, s: ScheduleId, user: UserId,
                                  p: UserPackageId, now: Time)
    requires BookedCount(bs, s) <= sc.maxCapacity
    ensures var b := AdmittedBooking(bs, sc, s, user, p, now);
      && BookedCount(bs + [b], s) <= sc.maxCapacity
      && (b.status == BookingStatus.Booked <==> BookedCount(bs, s) < sc.maxCapacity)
      && (b.status == BookingStatus.Booked ==> BookedCount(bs + [b], s) == BookedCount(bs, s) + 1)
      && (b.status == BookingStatus.Waitlisted ==>
            b.waitlistPosition.Some?
            && forall i, q :: 0 <= i < |bs| && CB.HoldsPosition(bs[i], s, q) ==> q < b.waitlistPosition.value)
  {
    var b := AdmittedBooking(bs, sc, s, user, p, now);
    BookedCountAppend(bs, s, b);
  }

  /** After a dense queue 1..n the next position handed out is n+1. */
  lemma NextPositionAfterDense(bs: seq<ClassBooking>, s: ScheduleId, n: int)
    requires DenseWaitlist(bs, s, n) && n >= 0
    ensures NextWaitlistPosition(bs, s) == n + 1
  {
    var r := NextWaitlistPosition(bs, s);
    if n >= 1 {
      assert Held(bs, s, n);
      var j :| 0 <= j < |bs| && CB.HoldsPosition(bs[j], s, n);
      assert n < r;
      if i :| 0 <= i < |bs| && CB.HoldsPosition(bs[i], s, r - 1) {
        assert Queued(bs[i], s);
      }
    } else {
      assert forall i :: 0 <= i < |bs| ==> !Queued(bs[i], s);
    }
  }

  /** A request that finds the class full joins a dense queue 1..n at position n+1. */
  lemma AdmissionExtendsDenseQueue(bs: seq<ClassBooking>, sc: ClassSchedule, s: ScheduleId, user: UserId,
                                   p: UserPackageId, now: Time, n: int)
    requires DenseWaitlist(bs, s, n) && n >= 0 && Full(bs, sc, s)
    ensures AdmittedBooking(bs, sc, s, user, p, now).waitlistPosition == Some(n + 1)
    ensures DenseWaitlist(bs + [AdmittedBooking(bs, sc, s, user, p, now)], s, n + 1)
  {
    NextPositionAfterDense(bs, s, n);
    var b := AdmittedBooking(bs, sc, s, user, p, now);
    assert CB.HoldsPosition(b, s, n + 1);
    var bs' := bs + [b];
    forall q | 1 <= q <= n + 1
      ensures Held(bs', s, q)
    {
      if q == n + 1 {
        assert CB.HoldsPosition(bs'[|bs|], s, q);
      } else {
        assert Held(bs, s, q);
        var j :| 0 <= j < |bs| && CB.HoldsPosition(bs[j], s, q);
        assert CB.HoldsPosition(bs'[j], s, q);
      }
    }
  }

  /** Admission moves credits only for a seat: exactly the chosen package pays the
      class's price and stays within its column constraint; a waitlist place costs
      nothing. */
  lemma AdmissionCharges(ups: seq<UserPackage>, bs: seq<ClassBooking>, sc: ClassSchedule, s: ScheduleId,
                         p: UserPackageId, now: Time)
    requires p < |ups| && Suitable(ups[p], sc.requiredCredits, now)
    ensures var ups' := ChargedPackages(ups, bs, sc, s, p);
      && |ups'| == |ups|
      && (forall i :: 0 <= i < |ups| && i != p ==> ups'[i] == ups[i])
      && (Full(bs, sc, s) ==> ups' == ups)
      && (!Full(bs, sc, s) ==> ups'[p].remainingCredits == ups[p].remainingCredits - sc.requiredCredits
                               && CreditsInRange(ups'[p]))
  {
    DebitOfSuitableKeepsLedgerSound(ups[p], sc.requiredCredits, now);
  }

  /** No member holds seats in two overlapping classes. */
  predicate NoClashes(bs: seq<ClassBooking>, scs: seq<ClassSchedule>) {
    forall i, j :: (0 <= i < |bs| && 0 <= j < |bs| && i != j && bs[i].user == bs[j].user
      && Holding(bs[i]) && Holding(bs[j]) && bs[j].schedule < |scs|) ==> !ClashesWith(bs[i], scs, scs[bs[j].schedule])
  }

  /** Admitting a validated request keeps every member free of overlapping seats. */
  lemma AdmissionKeepsMembersFreeOfClashes(catalogue: seq<Package>, ups: seq<UserPackage>, scs: seq<ClassSchedule>,
                                           bs: seq<ClassBooking>, user: UserId, s: ScheduleId, now: Time)
    requires NoClashes(bs, scs)
    requires ValidateBooking(catalogue, ups, scs, bs, user, s, now).Success?
    ensures var p := ValidateBooking(catalogue, ups, scs, bs, user, s, now).value;
      NoClashes(bs + [AdmittedBooking(bs, scs[s], s, user, p, now)], scs)
  {
    var p := ValidateBooking(catalogue, ups, scs, bs, user, s, now).value;
    var b := AdmittedBooking(bs, scs[s], s, user, p, now);
    var bs' := bs + [b];
    HasTimeConflictMeans(bs, scs, user, scs[s]);
    forall i, j | 0 <= i < |bs'| && 0 <= j < |bs'| && i != j && bs'[i].user == bs'[j].user
      && Holding(bs'[i]) && Holding(bs'[j]) && bs'[j].schedule < |scs|
      ensures !ClashesWith(bs'[i], scs, scs[bs'[j].schedule])
    {
      if i == |bs| {
        var c := scs[bs[j].schedule];
        TimeOverlapsSymmetric(scs[s].startTime, scs[s].endTime, c.startTime, c.endTime);
        assert !ClashesWith(bs[j], scs, scs[s]);
      } else if j == |bs| {
        assert !ClashesWith(bs[i], scs, scs[s]);
      } else {
        assert bs'[i] == bs[i] && bs'[j] == bs[j];
      }
    }
  }

  /** A member who already holds a seat in a class with a non-empty time slot is
      refused a second booking of it. */
  lemma NoSecondSeatInSameClass(catalogue: seq<Package>, ups: seq<UserPackage>, scs: seq<ClassSchedule>,
                                bs: seq<ClassBooking>, user: UserId, now: Time, k: nat)
    requires k < |bs| && bs[k].user == user && Holding(bs[k]) && bs[k].schedule < |scs|
    requires scs[bs[k].schedule].startTime < scs[bs[k].schedule].endTime
    ensures ValidateBooking(catalogue, ups, scs, bs, user, bs[k].schedule, now).Failure?
  {
    HasTimeConflictMeans(bs, scs, user, scs[bs[k].schedule]);
    assert ClashesWith(bs[k], scs, scs[bs[k].schedule]);
  }

  // ---------------------------------------------------------------------------
  // Check-in

  /** The check-in window: from the configured minutes before start to the
      configured minutes after it, both ends included. */
  predicate InCheckInWindow(sc: ClassSchedule, now: Time, cfg: Settings) {
    sc.startTime - cfg.checkinBeforeMinutes <= now <= sc.startTime + cfg.checkinAfterMinutes
  }

  /** checkInToClass's checks in order; none fails exactly when the member's own
      confirmed, not yet checked-in booking is inside the window. */
  function CheckInCheck(bs: seq<ClassBooking>, scs: seq<ClassSchedule>, user: UserId, k: BookingId, now: Time,
                        cfg: Settings)
    : (r: Option<ServiceError>)
    requires k < |bs| ==> bs[k].schedule < |scs|
    ensures r.None? <==> (k < |bs| && bs[k].user == user && bs[k].status == BookingStatus.Booked
      && bs[k].checkInTime.None? && InCheckInWindow(scs[bs[k].schedule], now, cfg))
    ensures r == Some(CheckInNotYetOpen) <==> (k < |bs| && bs[k].user == user && bs[k].status == BookingStatus.Booked
      && bs[k].checkInTime.None? && now < scs[bs[k].schedule].startTime - cfg.checkinBeforeMinutes)
    ensures r == Some(CheckInClosed) <==> (k < |bs| && bs[k].user == user && bs[k].status == BookingStatus.Booked
      && bs[k].checkInTime.None? && now >= scs[bs[k].schedule].startTime - cfg.checkinBeforeMinutes
      && now > scs[bs[k].schedule].startTime + cfg.checkinAfterMinutes)
    ensures r == Some(AlreadyCheckedIn) <==> (k < |bs| && bs[k].user == user && bs[k].status == BookingStatus.Booked
      && bs[k].checkInTime.Some?)
    ensures r == Some(NotConfirmed) <==> (k < |bs| && bs[k].user == user && bs[k].status != BookingStatus.Booked)
    ensures r == Some(NotOwner) <==> (k < |bs| && bs[k].user != user)
    ensures r == Some(BookingNotFound) <==> k >= |bs|
  {
    if k >= |bs| then Some(BookingNotFound)
    else
      var b := bs[k];
      if b.user != user then Some(NotOwner)
      else if b.status != BookingStatus.Booked then Some(NotConfirmed)
      else if b.checkInTime.Some? then Some(AlreadyCheckedIn)
      else if now < scs[b.schedule].startTime - cfg.checkinBeforeMinutes then Some(CheckInNotYetOpen)
      else if now > scs[b.schedule].startTime + cfg.checkinAfterMinutes then Some(CheckInClosed)
      else None
  }

  /** A booking checked in at now. */
  function CheckedInEntry(b: ClassBooking, now: Time): ClassBooking {
    b.(status := BookingStatus.CheckedIn, checkInTime := Some(now))
  }

  // ---------------------------------------------------------------------------
  // Cancellation

  /** cancelBooking's checks in order; none fails exactly when the booking is the
      member's own and neither cancelled nor checked in. */
  function CancelCheck(bs: seq<ClassBooking>, user: UserId, k: BookingId): (r: Option<ServiceError>)
    ensures r.None? <==> (k < |bs| && bs[k].user == user && bs[k].status != BookingStatus.Cancelled
      && bs[k].status != BookingStatus.CheckedIn)
    ensures r == Some(AlreadyCancelled) <==> (k < |bs| && bs[k].user == user && bs[k].status == BookingStatus.Cancelled)
    ensures r == Some(CannotCancelCheckedIn) <==> (k < |bs| && bs[k].user == user && bs[k].status == BookingStatus.CheckedIn)
    ensures r == Some(NotOwner) <==> (k < |bs| && bs[k].user != user)
    ensures r == Some(BookingNotFound) <==> k >= |bs|
  {
    if k >= |bs| then Some(BookingNotFound)
    else if bs[k].user != user then Some(NotOwner)
    else if bs[k].status == BookingStatus.Cancelled then Some(AlreadyCancelled)
    else if bs[k].status == BookingStatus.CheckedIn then Some(CannotCancelCheckedIn)
    else None
  }

  /** Checking in and cancelling are final for the booking: a checked-in booking
      can be neither checked in again nor cancelled, and a cancelled one can be
      neither cancelled again nor checked in. */
  lemma CheckInAndCancelAreFinal(bs: seq<ClassBooking>, scs: seq<ClassSchedule>, user: UserId, k: BookingId, now: Time, later: Time,
                                 cfg: Settings)
    requires k < |bs| && bs[k].schedule < |scs| && bs[k].user == user
    ensures var checkedIn := bs[k := CheckedInEntry(bs[k], now)];
      CheckInCheck(checkedIn, scs, user, k, later, cfg) == Some(NotConfirmed)
      && CancelCheck(checkedIn, user, k) == Some(CannotCancelCheckedIn)
    ensures var cancelled := bs[k := CancelledEntry(bs[k], now)];
      CancelCheck(cancelled, user, k) == Some(AlreadyCancelled)
      && CheckInCheck(cancelled, scs, user, k, later, cfg) == Some(NotConfirmed)
  {
  }
}
