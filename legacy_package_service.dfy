/** The purchase flow of the older variant (com.bookingsystem.service.
    PackageService): the same steps as the main variant's, building the entry with
    the older entity's constructor and showing its status with the older entity's
    expiry test. */
module LegacyPackageService {
  import opened Wrappers
  import opened Entities
  import opened Persistence
  import L = LegacyEntities
  import P = PackageServiceImpl

  /** getAvailablePackages: the ACTIVE packages of the country. */
  function GetAvailablePackages(catalogue: seq<Package>, country: string): (r: seq<PackageId>)
    ensures forall i: int :: i in r <==> (0 <= i < |catalogue| && catalogue[i].country == country
      && catalogue[i].status == PackageStatus.Active)
  {
    P.FindByCountryAndStatus(catalogue, country, PackageStatus.Active)
  }

  /** The status shown for a purchased package: "EXPIRED" once isExpired() holds,
      the stored status otherwise. */
  function DisplayStatus(p: UserPackage, now: Time): (r: string)
    ensures L.IsExpired(p, now) ==> r == "EXPIRED"
    ensures !L.IsExpired(p, now) ==> r == P.StatusName(p.status)
  {
    if L.IsExpired(p, now) then "EXPIRED" else P.StatusName(p.status)
  }

  /** The entry a purchase creates, through the older constructor. */
  function Purchased(catalogue: seq<Package>, user: UserId, packageId: PackageId, now: Time): UserPackage
    requires packageId < |catalogue|
  {
    var pkg := catalogue[packageId];
    L.NewUserPackage(user, packageId, pkg.credits, now + pkg.validityDays * MinutesPerDay, pkg.price, now)
  }

  /** Both variants list the same packages, show the same status and create the
      same entry: the package's credits, ACTIVE, bought now, valid for its days,
      paid at its price. */
  lemma PurchaseMatchesMain(catalogue: seq<Package>, user: UserId, packageId: PackageId, now: Time, p: UserPackage, country: string)
    requires packageId < |catalogue|
    ensures GetAvailablePackages(catalogue, country) == P.GetAvailablePackages(catalogue, country)
    ensures DisplayStatus(p, now) == P.DisplayStatus(p, now)
    ensures var up := Purchased(catalogue, user, packageId, now);
      && up == P.Purchased(catalogue, user, packageId, now)
      && up.status == UserPackageStatus.Active && up.remainingCredits == catalogue[packageId].credits
      && up.expiryDate == now + catalogue[packageId].validityDays * MinutesPerDay
      && up.purchaseDate == now
  {
  }

  class PackageService {
    const store: Store

    constructor (store: Store)
      ensures this.store == store
    {
      this.store := store;
    }

    /** purchasePackage */
    method PurchasePackage(user: UserId, packageId: PackageId, now: Time, paymentSuccess: bool)
      returns (r: Result<UserPackageId, ServiceError>)
      requires store.Valid()
      modifies store
      ensures store.Valid()
      ensures packageId >= |old(store.catalogue)| ==> r == Failure(PackageNotFound)
      ensures packageId < |old(store.catalogue)| && old(store.catalogue)[packageId].status != PackageStatus.Active
        ==> r == Failure(PackageNotAvailable)
      ensures (packageId < |old(store.catalogue)| && old(store.catalogue)[packageId].status == PackageStatus.Active
        && !paymentSuccess) ==> r == Failure(PaymentFailed)
      ensures r.Success? <==> (packageId < |old(store.catalogue)|
        && old(store.catalogue)[packageId].status == PackageStatus.Active && paymentSuccess)
      ensures r.Failure? ==> store.userPackages == old(store.userPackages)
      ensures r.Success? ==> (packageId < |old(store.catalogue)|
        && r.value == |old(store.userPackages)|
        && store.userPackages == old(store.userPackages) + [Purchased(old(store.catalogue), user, packageId, now)])
      ensures store.catalogue == old(store.catalogue) && store.schedules == old(store.schedules)
      ensures store.bookings == old(store.bookings) && store.locks == old(store.locks)
    {
      if packageId >= |store.catalogue| {
        return Failure(PackageNotFound);
      }
      var packageEntity := store.catalogue[packageId];
      if packageEntity.status != PackageStatus.Active {
        return Failure(PackageNotAvailable);
      }
      if !paymentSuccess {
        return Failure(PaymentFailed);
      }
      var userPackage := L.NewUserPackage(user, packageId, packageEntity.credits,
                                          now + packageEntity.validityDays * MinutesPerDay, packageEntity.price, now);
      r := Success(|store.userPackages|);
      store.userPackages := store.userPackages + [userPackage];
    }
  }
}
