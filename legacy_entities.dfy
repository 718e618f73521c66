/** The older entity classes (package com.bookingsystem.entity): field for field the
    same records as Entities, with their own constructors, defaults and predicates. */
module LegacyEntities {
  import opened Wrappers
  import E = Entities

  /** The constructor leaves the status to its field initializer (ACTIVE) and sets
      the purchase date to now. */
  function NewUserPackage(user: E.UserId, packageId: E.PackageId, remainingCredits: int,
                          expiryDate: E.Time, paidAmount: int, now: E.Time): E.UserPackage
  {
    E.UserPackage(user, packageId, remainingCredits, now, expiryDate, paidAmount, E.UserPackageStatus.Active)
  }

  /** The booking constructor: status BOOKED from the field initializer, booked now,
      no cancellation, check-in or waitlist position. */
  function NewClassBooking(user: E.UserId, schedule: E.ScheduleId, userPackage: E.UserPackageId,
                           now: E.Time): E.ClassBooking
  {
    E.ClassBooking(user, schedule, userPackage, E.BookingStatus.Booked, now, None, None, None)
  }

  /** isExpired(): strictly after the expiry date. */
  predicate IsExpired(p: E.UserPackage, now: E.Time) {
    now > p.expiryDate
  }

  /** isActive(): ACTIVE, not expired and with credits left. */
  predicate IsActive(p: E.UserPackage, now: E.Time) {
    p.status == E.UserPackageStatus.Active && !IsExpired(p, now) && p.remainingCredits > 0
  }

  /** Not expired at the expiry minute itself, expired from the next minute on. */
  lemma ExpiryBoundary(p: E.UserPackage, t: E.Time, t': E.Time)
    ensures !IsExpired(p, p.expiryDate) && IsExpired(p, p.expiryDate + 1)
    ensures IsExpired(p, t) && t <= t' ==> IsExpired(p, t')
  {
  }

  /** isActive in both directions. */
  lemma ActiveMeans(p: E.UserPackage, now: E.Time)
    ensures IsActive(p, now) <==>
      p.status == E.UserPackageStatus.Active && now <= p.expiryDate && p.remainingCredits >= 1
  {
  }

  /** A newly constructed package is ACTIVE by default, holds exactly the given
      credits and was bought now. */
  lemma NewUserPackageIsActive(user: E.UserId, packageId: E.PackageId, credits: int,
                               expiryDate: E.Time, paidAmount: int, now: E.Time)
    ensures var p := NewUserPackage(user, packageId, credits, expiryDate, paidAmount, now);
      && p.status == E.UserPackageStatus.Active && p.purchaseDate == now
      && p.remainingCredits == credits && p.expiryDate == expiryDate
      && (credits >= 0 ==> E.CreditsInRange(p))
      && (IsActive(p, now) <==> credits > 0 && now <= expiryDate)
  {
  }

  /** A new booking starts out BOOKED, with no cancellation, check-in or position. */
  lemma NewClassBookingIsBooked(user: E.UserId, schedule: E.ScheduleId, userPackage: E.UserPackageId,
                                now: E.Time)
    ensures var b := NewClassBooking(user, schedule, userPackage, now);
      && b.status == E.BookingStatus.Booked && b.bookingTime == now
      && b.cancellationTime.None? && b.checkInTime.None? && b.waitlistPosition.None?
  {
  }
}
