/** The package-ledger queries (com.app.booking.repository.UserPackageRepository) as
    pure filters over the user-package table. A user package's country is the
    country of the catalogue package it was bought from. */
module UserPackageRepository {
  import opened Wrappers
  import opened Queries
  import opened Entities

  /** up.packageEntity.country = :country */
  predicate InCountry(p: UserPackage, catalogue: seq<Package>, country: string) {
    p.packageId < |catalogue| && catalogue[p.packageId].country == country
  }

  /** The ORDER BY expiryDate key. */
  function ByExpiry(ups: seq<UserPackage>): nat -> int {
    (i: nat) => if i < |ups| then ups[i].expiryDate else 0
  }

  /** findByUserAndPackageEntity_CountryOrderByExpiryDateAsc: the member's packages
      for the country, soonest expiry first. */
  function FindByUserAndPackageEntityCountryOrderByExpiryDateAsc(
    ups: seq<UserPackage>, catalogue: seq<Package>, user: UserId, country: string): (r: seq<UserPackageId>)
    ensures forall i: int :: i in r <==> (0 <= i < |ups| && ups[i].user == user && InCountry(ups[i], catalogue, country))
    ensures Distinct(r)
    ensures forall a :: 0 <= a < |r| ==> r[a] < |ups|
    ensures SortedBy(r, ByExpiry(ups))
  {
    var matching := Select(ups, (p: UserPackage) => p.user == user && InCountry(p, catalogue, country));
    IncreasingIsDistinct(matching);
    SortByKeepsDistinct(matching, ByExpiry(ups));
    var sorted := SortBy(matching, ByExpiry(ups));
    assert forall a :: 0 <= a < |sorted| ==> sorted[a] < |ups| by {
      forall a | 0 <= a < |sorted| ensures sorted[a] < |ups| {
        assert sorted[a] in matching;
      }
    }
    sorted
  }

  /** The filter of findActivePackagesByUserAndCountry. */
  predicate ListedActive(p: UserPackage, catalogue: seq<Package>, user: UserId, country: string, now: Time) {
    p.user == user && InCountry(p, catalogue, country) && p.status == UserPackageStatus.Active
    && p.expiryDate > now && p.remainingCredits > 0
  }

  /** findActivePackagesByUserAndCountry: ACTIVE, expiring strictly after now and with
      credits left, soonest expiry first. */
  function FindActivePackagesByUserAndCountry(
    ups: seq<UserPackage>, catalogue: seq<Package>, user: UserId, country: string, now: Time): (r: seq<UserPackageId>)
    ensures forall i: int :: i in r <==> (0 <= i < |ups| && ListedActive(ups[i], catalogue, user, country, now))
    ensures Distinct(r)
    ensures forall a :: 0 <= a < |r| ==> r[a] < |ups|
    ensures SortedBy(r, ByExpiry(ups))
  {
    var matching := Select(ups, (p: UserPackage) => ListedActive(p, catalogue, user, country, now));
    IncreasingIsDistinct(matching);
    SortByKeepsDistinct(matching, ByExpiry(ups));
    var sorted := SortBy(matching, ByExpiry(ups));
    assert forall a :: 0 <= a < |sorted| ==> sorted[a] < |ups| by {
      forall a | 0 <= a < |sorted| ensures sorted[a] < |ups| {
        assert sorted[a] in matching;
      }
    }
    sorted
  }

  /** The query's `expiryDate > now` and the entity's isActive() disagree only at the
      expiry minute itself: there the package is still usable but no longer listed. */
  lemma ListedActiveVersusIsActive(p: UserPackage, catalogue: seq<Package>, user: UserId, country: string, now: Time)
    requires p.user == user && InCountry(p, catalogue, country)
    ensures ListedActive(p, catalogue, user, country, now) ==> IsActive(p, now)
    ensures IsActive(p, now) && now < p.expiryDate ==> ListedActive(p, catalogue, user, country, now)
    ensures IsActive(p, p.expiryDate) ==> !ListedActive(p, catalogue, user, country, p.expiryDate)
  {
  }

  /** The filter of findExpiredActivePackages. */
  predicate ExpiredActive(p: UserPackage, now: Time) {
    p.status == UserPackageStatus.Active && p.expiryDate < now
  }

  /** findExpiredActivePackages: every ACTIVE package whose expiry date is strictly
      before now, which are exactly the ACTIVE packages isExpired() reports. */
  function FindExpiredActivePackages(ups: seq<UserPackage>, now: Time): (r: seq<UserPackageId>)
    ensures forall i: int :: i in r <==> (0 <= i < |ups| && ups[i].status == UserPackageStatus.Active && ups[i].expiryDate < now)
    ensures forall i: int :: i in r <==> (0 <= i < |ups| && ups[i].status == UserPackageStatus.Active && IsExpired(ups[i], now))
    ensures Increasing(r)
  {
    Select(ups, (p: UserPackage) => ExpiredActive(p, now))
  }

  /** The filter of getTotalRemainingCreditsByUserAndCountry (no condition on the
      balance itself). */
  predicate Counted(p: UserPackage, catalogue: seq<Package>, user: UserId, country: string, now: Time) {
    p.user == user && InCountry(p, catalogue, country) && p.status == UserPackageStatus.Active && p.expiryDate > now
  }

  /** The credits of the listed rows, added up. */
  function SumOver(ups: seq<UserPackage>, ids: seq<nat>): int
    requires forall a :: 0 <= a < |ids| ==> ids[a] < |ups|
    decreases |ids|
  {
    if |ids| == 0 then 0
    else SumOver(ups, ids[..|ids| - 1]) + ups[ids[|ids| - 1]].remainingCredits
  }

  /** Reference definition: the credits of the rows of the table that pass `p`,
      added up row by row. */
  function TableSum(ups: seq<UserPackage>, p: UserPackage -> bool): int
    decreases |ups|
  {
    if |ups| == 0 then 0
    else TableSum(ups[..|ups| - 1], p) + (if p(ups[|ups| - 1]) then ups[|ups| - 1].remainingCredits else 0)
  }

  lemma {:induction false} SumOverPrefix(ups: seq<UserPackage>, n: nat, ids: seq<nat>)
    requires n <= |ups|
    requires forall a :: 0 <= a < |ids| ==> ids[a] < n
    ensures SumOver(ups, ids) == SumOver(ups[..n], ids)
    decreases |ids|
  {
    if |ids| > 0 {
      SumOverPrefix(ups, n, ids[..|ids| - 1]);
    }
  }

  lemma {:induction false} SelectSumIsTableSum(ups: seq<UserPackage>, p: UserPackage -> bool)
    ensures var ids := Select(ups, p);
      (forall a :: 0 <= a < |ids| ==> ids[a] < |ups|) && SumOver(ups, ids) == TableSum(ups, p)
    decreases |ups|
  {
    var ids := Select(ups, p);
    assert forall a :: 0 <= a < |ids| ==> ids[a] < |ups| by {
      forall a | 0 <= a < |ids| ensures ids[a] < |ups| {
        assert ids[a] in ids;
      }
    }
    if |ups| > 0 {
      var n := |ups| - 1;
      var prefix := ups[..n];
      var rest := Select(prefix, p);
      SelectSumIsTableSum(prefix, p);
      SumOverPrefix(ups, n, rest);
      if p(ups[n]) {
        assert ids == rest + [n];
        assert ids[..|ids| - 1] == rest;
      } else {
        assert ids == rest;
      }
    }
  }

  /** getTotalRemainingCreditsByUserAndCountry: SUM over the member's ACTIVE packages
      of the country that expire after now; SQL SUM over no rows yields nothing. */
  function GetTotalRemainingCreditsByUserAndCountry(
    ups: seq<UserPackage>, catalogue: seq<Package>, user: UserId, country: string, now: Time): (r: Option<int>)
    ensures r.None? <==> forall i :: 0 <= i < |ups| ==> !Counted(ups[i], catalogue, user, country, now)
    ensures r.Some? ==> r.value == TableSum(ups, (p: UserPackage) => Counted(p, catalogue, user, country, now))
  {
    var filter := (p: UserPackage) => Counted(p, catalogue, user, country, now);
    var ids := Select(ups, filter);
    SelectSumIsTableSum(ups, filter);
    if |ids| == 0 then
      None
    else
      assert ids[0] in ids;
      Some(SumOver(ups, ids))
  }

  /** When no counted balance is negative, the total is at least every single
      counted balance (and so never negative). */
  lemma {:induction false} TableSumBoundsEachRow(ups: seq<UserPackage>, p: UserPackage -> bool, i: nat)
    requires forall j :: 0 <= j < |ups| && p(ups[j]) ==> CreditsInRange(ups[j])
    requires i < |ups| && p(ups[i])
    ensures 0 <= ups[i].remainingCredits <= TableSum(ups, p)
    decreases |ups|
  {
    var n := |ups| - 1;
    TableSumNonNegative(ups[..n], p);
    if i < n {
      TableSumBoundsEachRow(ups[..n], p, i);
    }
  }

  lemma {:induction false} TableSumNonNegative(ups: seq<UserPackage>, p: UserPackage -> bool)
    requires forall j :: 0 <= j < |ups| && p(ups[j]) ==> CreditsInRange(ups[j])
    ensures TableSum(ups, p) >= 0
    decreases |ups|
  {
    if |ups| > 0 {
      TableSumNonNegative(ups[..|ups| - 1], p);
    }
  }

  /** findPackagesExpiringBetween: ACTIVE packages with startDate <= expiryDate <=
      endDate (BETWEEN is inclusive), soonest expiry first. */
  function FindPackagesExpiringBetween(ups: seq<UserPackage>, startDate: Time, endDate: Time): (r: seq<UserPackageId>)
    ensures forall i: int :: i in r <==> (0 <= i < |ups| && ups[i].status == UserPackageStatus.Active
      && startDate <= ups[i].expiryDate <= endDate)
    ensures Distinct(r)
    ensures forall a :: 0 <= a < |r| ==> r[a] < |ups|
    ensures SortedBy(r, ByExpiry(ups))
  {
    var matching := Select(ups, (p: UserPackage) => p.status == UserPackageStatus.Active
      && startDate <= p.expiryDate <= endDate);
    IncreasingIsDistinct(matching);
    SortByKeepsDistinct(matching, ByExpiry(ups));
    var sorted := SortBy(matching, ByExpiry(ups));
    assert forall a :: 0 <= a < |sorted| ==> sorted[a] < |ups| by {
      forall a | 0 <= a < |sorted| ensures sorted[a] < |ups| {
        assert sorted[a] in matching;
      }
    }
    sorted
  }
}
