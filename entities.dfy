/** The records of the booking system and the predicates of the member's purchased
    package (com.app.booking.entity.UserPackage). Times are whole minutes since an
    arbitrary epoch; `now` is always an explicit parameter. A record's id is its
    position in its table (see Persistence.Store). */
module Entities {
  import opened Wrappers

  type Time = int
  type UserId = nat
  type PackageId = nat
  type UserPackageId = nat
  type ScheduleId = nat
  type BookingId = nat

  const MinutesPerHour: int := 60
  const MinutesPerDay: int := 24 * 60

  datatype BookingStatus = Booked | Waitlisted | Cancelled | CheckedIn | NoShow
  datatype ClassStatus = Scheduled | Ongoing | Completed | Cancelled
  datatype UserPackageStatus = Active | Expired | UsedUp
  datatype PackageStatus = Active | Inactive

  /** A package definition offered for sale; the price is carried as an opaque
      integer amount. */
  datatype Package = Package(
    credits: int,
    price: int,
    validityDays: int,
    country: string,
    status: PackageStatus)

  /** A member's purchased package: the credit ledger entry. */
  datatype UserPackage = UserPackage(
    user: UserId,
    packageId: PackageId,
    remainingCredits: int,
    purchaseDate: Time,
    expiryDate: Time,
    paidAmount: int,
    status: UserPackageStatus)

  datatype ClassSchedule = ClassSchedule(
    startTime: Time,
    endTime: Time,
    maxCapacity: int,
    requiredCredits: int,
    country: string,
    status: ClassStatus)

  /** A reservation; `waitlistPosition` is a nullable column. */
  datatype ClassBooking = ClassBooking(
    user: UserId,
    schedule: ScheduleId,
    userPackage: UserPackageId,
    status: BookingStatus,
    bookingTime: Time,
    cancellationTime: Option<Time>,
    checkInTime: Option<Time>,
    waitlistPosition: Option<int>)

  /** Why a request is refused: one constructor per distinct not-found or
      bad-request exception the services throw. */
  datatype ServiceError =
    | ScheduleNotFound | NotBookable | AlreadyStarted | BookingClosed | TimeConflict
    | NoSuitablePackage | LockUnavailable
    | BookingNotFound | NotOwner | AlreadyCancelled | CannotCancelCheckedIn
    | NotConfirmed | AlreadyCheckedIn | CheckInNotYetOpen | CheckInClosed | OutsideCheckInWindow
    | PackageNotFound | PackageNotAvailable | PaymentFailed

  /** The column constraint on remainingCredits (declared zero or positive). */
  predicate CreditsInRange(p: UserPackage) {
    p.remainingCredits >= 0
  }

  /** The entity's constructor, which is also what the builder produces with its
      defaults: a fresh ACTIVE entry bought at `now`. */
  function NewUserPackage(user: UserId, packageId: PackageId, remainingCredits: int,
                          expiryDate: Time, paidAmount: int, now: Time): UserPackage
  {
    UserPackage(user, packageId, remainingCredits, now, expiryDate, paidAmount, UserPackageStatus.Active)
  }

  /** isExpired(): the current time is strictly after the expiry date. */
  predicate IsExpired(p: UserPackage, now: Time) {
    now > p.expiryDate
  }

  /** isActive(): ACTIVE, not expired and with credits left. */
  predicate IsActive(p: UserPackage, now: Time) {
    p.status == UserPackageStatus.Active && !IsExpired(p, now) && p.remainingCredits > 0
  }

  /** A package is still valid at the very minute it expires, is expired one minute
      later, and never becomes valid again once expired. */
  lemma ExpiryBoundary(p: UserPackage, t: Time, t': Time)
    ensures !IsExpired(p, p.expiryDate) && IsExpired(p, p.expiryDate + 1)
    ensures IsExpired(p, t) && t <= t' ==> IsExpired(p, t')
  {
  }

  /** isActive holds exactly when the stored status is ACTIVE, the current time is
      not past the expiry date and at least one credit is left; it can only be lost
      as time passes. */
  lemma ActiveMeans(p: UserPackage, now: Time, earlier: Time)
    ensures IsActive(p, now) <==>
      p.status == UserPackageStatus.Active && now <= p.expiryDate && p.remainingCredits >= 1
    ensures IsActive(p, now) && earlier <= now ==> IsActive(p, earlier)
  {
  }

  /** A newly constructed package is ACTIVE, was bought now, holds exactly the
      credits it was given, and is usable until its expiry date when it holds any. */
  lemma NewUserPackageIsActive(user: UserId, packageId: PackageId, credits: int,
                               expiryDate: Time, paidAmount: int, now: Time)
    ensures var p := NewUserPackage(user, packageId, credits, expiryDate, paidAmount, now);
      && p.status == UserPackageStatus.Active && p.purchaseDate == now
      && p.remainingCredits == credits && p.expiryDate == expiryDate && p.paidAmount == paidAmount
      && (credits >= 0 ==> CreditsInRange(p))
      && (IsActive(p, now) <==> credits > 0 && now <= expiryDate)
  {
  }
}
