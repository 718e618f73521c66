/** The package catalogue and purchase flow of the main variant
    (com.app.booking.serviceImpl.PackageServiceImpl): which packages are on sale in a
    country, how a purchased package's status is shown, and the purchase that
    appends a new ledger entry once the payment has gone through. The payment
    provider's answer is an input. */
module PackageServiceImpl {
  import opened Wrappers
  import opened Queries
  import opened Entities
  import opened Persistence

  /** packageRepository.findByCountryAndStatus: the catalogue entries of the country
      with the status, in id order. */
  function FindByCountryAndStatus(catalogue: seq<Package>, country: string, st: PackageStatus): (r: seq<PackageId>)
    ensures forall i: int :: i in r <==> (0 <= i < |catalogue| && catalogue[i].country == country && catalogue[i].status == st)
    ensures Increasing(r)
  {
    Select(catalogue, (p: Package) => p.country == country && p.status == st)
  }

  /** getAvailablePackages: the ACTIVE packages of the country. */
  function GetAvailablePackages(catalogue: seq<Package>, country: string): (r: seq<PackageId>)
    ensures forall i: int :: i in r <==> (0 <= i < |catalogue| && catalogue[i].country == country
      && catalogue[i].status == PackageStatus.Active)
    ensures Distinct(r)
  {
    var r := FindByCountryAndStatus(catalogue, country, PackageStatus.Active);
    IncreasingIsDistinct(r);
    r
  }

  /** The enum constant's name. */
  function StatusName(st: UserPackageStatus): (r: string)
    ensures r in {"ACTIVE", "EXPIRED", "USED_UP"}
  {
    match st
    case Active => "ACTIVE"
    case Expired => "EXPIRED"
    case UsedUp => "USED_UP"
  }

  /** Distinct statuses have distinct names. */
  lemma StatusNameInjective(a: UserPackageStatus, b: UserPackageStatus)
    ensures StatusName(a) == StatusName(b) ==> a == b
  {
  }

  /** The status shown for a purchased package: "EXPIRED" once it is past its expiry
      date, the stored status otherwise. */
  function DisplayStatus(p: UserPackage, now: Time): (r: string)
    ensures IsExpired(p, now) ==> r == "EXPIRED"
    ensures !IsExpired(p, now) ==> r == StatusName(p.status)
  {
    if IsExpired(p, now) then "EXPIRED" else StatusName(p.status)
  }

  /** "EXPIRED" is shown exactly for a package past its expiry date or stored as
      EXPIRED; "ACTIVE" only for a package stored ACTIVE and not past its date, which
      is isActive() whenever it has credits left. */
  lemma DisplayStatusMeans(p: UserPackage, now: Time)
    ensures DisplayStatus(p, now) == "EXPIRED" <==> IsExpired(p, now) || p.status == UserPackageStatus.Expired
    ensures DisplayStatus(p, now) == "ACTIVE" <==> p.status == UserPackageStatus.Active && !IsExpired(p, now)
    ensures DisplayStatus(p, now) == "ACTIVE" && p.remainingCredits > 0 ==> IsActive(p, now)
  {
    StatusNameInjective(p.status, UserPackageStatus.Expired);
    StatusNameInjective(p.status, UserPackageStatus.Active);
  }

  /** The ledger entry a purchase creates: the package's credits, valid for its
      number of days from now, paid at its price. */
  function Purchased(catalogue: seq<Package>, user: UserId, packageId: PackageId, now: Time): (up: UserPackage)
    requires packageId < |catalogue|
    ensures up.user == user && up.packageId == packageId && up.purchaseDate == now
    ensures up.remainingCredits == catalogue[packageId].credits
    ensures up.expiryDate == now + catalogue[packageId].validityDays * MinutesPerDay
    ensures up.paidAmount == catalogue[packageId].price && up.status == UserPackageStatus.Active
  {
    var pkg := catalogue[packageId];
    NewUserPackage(user, packageId, pkg.credits, now + pkg.validityDays * MinutesPerDay, pkg.price, now)
  }

  /** A package can be bought exactly when it is among those on sale in its own
      country; what is bought is usable right away when it carries credits and a
      validity that has not run out, and storing it keeps the tables well formed. */
  lemma PurchasableIffOnSale(catalogue: seq<Package>, ups: seq<UserPackage>, scs: seq<ClassSchedule>,
                             bs: seq<ClassBooking>, user: UserId, packageId: PackageId, now: Time)
    requires packageId < |catalogue|
    requires WellFormed(catalogue, ups, scs, bs)
    ensures catalogue[packageId].status == PackageStatus.Active
      <==> packageId in GetAvailablePackages(catalogue, catalogue[packageId].country)
    ensures IsActive(Purchased(catalogue, user, packageId, now), now)
      <==> catalogue[packageId].credits > 0 && catalogue[packageId].validityDays >= 0
    ensures WellFormed(catalogue, ups + [Purchased(catalogue, user, packageId, now)], scs, bs)
    ensures catalogue[packageId].credits >= 0 && AllCreditsInRange(ups) ==>
      AllCreditsInRange(ups + [Purchased(catalogue, user, packageId, now)])
  {
  }

  class PackageService {
    const store: Store

    constructor (store: Store)
      ensures this.store == store
    {
      this.store := store;
    }

    /** purchasePackage: the package must exist and be ACTIVE before the payment is
        asked for; a refused payment stores nothing; otherwise the new entry is the
        next row of the ledger. */
    method PurchasePackage(user: UserId, packageId: PackageId, now: Time, paymentSuccess: bool)
      returns (r: Result<UserPackageId, ServiceError>)
      requires store.Valid()
      modifies store
      ensures store.Valid()
      ensures packageId >= |old(store.catalogue)| ==> r == Failure(PackageNotFound)
      ensures packageId < |old(store.catalogue)| && old(store.catalogue)[packageId].status != PackageStatus.Active
        ==> r == Failure(PackageNotAvailable)
      ensures (packageId < |old(store.catalogue)| && old(store.catalogue)[packageId].status == PackageStatus.Active
        && !paymentSuccess) ==> r == Failure(PaymentFailed)
      ensures r.Success? <==> (packageId < |old(store.catalogue)|
        && old(store.catalogue)[packageId].status == PackageStatus.Active && paymentSuccess)
      ensures r.Failure? ==> store.userPackages == old(store.userPackages)
      ensures r.Success? ==> (packageId < |old(store.catalogue)|
        && r.value == |old(store.userPackages)|
        && store.userPackages == old(store.userPackages) + [Purchased(old(store.catalogue), user, packageId, now)])
      ensures store.catalogue == old(store.catalogue) && store.schedules == old(store.schedules)
      ensures store.bookings == old(store.bookings) && store.locks == old(store.locks)
    {
      if packageId >= |store.catalogue| {
        return Failure(PackageNotFound);
      }
      var packageEntity := store.catalogue[packageId];
      if packageEntity.status != PackageStatus.Active {
        return Failure(PackageNotAvailable);
      }
      if !paymentSuccess {
        return Failure(PaymentFailed);
      }
      var userPackage := NewUserPackage(user, packageId, packageEntity.credits,
                                        now + packageEntity.validityDays * MinutesPerDay, packageEntity.price, now);
      r := Success(|store.userPackages|);
      store.userPackages := store.userPackages + [userPackage];
    }
  }
}
