# Class booking: seat allocation and credit ledger

This is a model of the part of a fitness-class booking service that decides seats and
moves credits. Members buy packages of credits for one country. A booking either takes
a seat and debits the package, or joins the class's waitlist without a debit. A cancelled
seat can be passed to the head of the waitlist. Check-in is allowed only inside a time
window around the class start. Periodic passes do two things:

- they close finished classes, cancelling waitlisted bookings and marking unattended ones NO_SHOW;
- they expire lapsed packages and cancel the future bookings those packages backed.

The model covers both variants of the service:

- the main one, `com.app.booking`;
- the older one, `com.bookingsystem`, modelled as a second state machine with its own rules.

## How the model is organised

- `Entities` and `LegacyEntities` hold the records and the package predicates
  `isExpired`/`isActive`.
- Time is a whole number of minutes. The current time `now` is a parameter of every
  operation that reads the clock.
- `Persistence.Store` is the database. It is one object holding the package catalogue, the
  purchased packages (the ledger), the class schedules and the bookings. Each table is a
  sequence, and a row's id is its position. The store also holds the lock table. The
  services update the store in place.
- `Queries`, `ClassBookingRepository`, `UserPackageRepository` and
  `ClassScheduleRepository` give each repository query its meaning as a filter over a
  table:
  - results come in id order, or sorted by the query's ORDER BY key;
  - a NULL waitlist position sorts first;
  - SQL `MAX`/`SUM` over no rows is `None`.
- `RedisLock` is the per-class booking lock. It is a map from class to token, with
  set-if-absent, compare-and-delete and plain delete.
- `BookingRules` holds the main variant's pure decisions:
  - validation, package choice and the waitlist position;
  - debit and refund, waitlist compaction and recursive promotion;
  - completion of finished classes and the check-in and cancel checks.

  It also holds the lemmas about these decisions.
- `BookingServiceImpl.BookingService` holds the main service's operations as methods on
  the store. Each method's postcondition ties the new store to those functions.
- `BookingScheduler.Scheduler` holds the periodic passes:
  - class completion;
  - package expiry, with the cancellation of the expired package's future bookings;
  - the count of archivable bookings.
- `LegacyBookingService` is the older booking service. Its differences:
  - BOOKED-only conflict test;
  - no booking cut-off;
  - no USED_UP status on debit;
  - unconditional lock release;
  - promotion with no validity check;
  - CHECKED_IN bookings may be cancelled.
- `PackageServiceImpl` and `LegacyPackageService` model package listing, the displayed
  status and purchase. The payment provider's answer is an input.

Where the code's own comments promise more than the code does, the model follows the code.
In particular:

- The comment at `src/main/java/com/app/booking/serviceImpl/BookingServiceImpl.java:169`
  promises a credit refund and waitlist promotion for a cancelled seat, and those at
  `:172`, `:179` and `:182` name the refund, the promotion and the renumbering of the
  queue. All three are dead code, because the status is overwritten before it is tested
  (see Findings).
- The comment at `src/main/java/com/app/booking/scheduler/BookingScheduler.java:210-212`
  promises a waitlist promotion after the expiry pass cancels a seat. The code only logs.
- A debit sets USED_UP when the balance reaches zero or goes below it
  (`BookingServiceImpl.java:304`), not only at exactly zero.
- The cancellation cutoff and the check-in window are the configured properties
  `app.booking.cancellation-hours`, `app.booking.checkin-before-minutes` and
  `app.booking.checkin-after-minutes`. They are a `BookingRules.Settings` value held by
  the service, and `BookingRules.DefaultSettings` (4 hours, 15 and 30 minutes) gives
  the defaults. The older variant's check-in window is fixed at 15 and 30 minutes in
  its code, and its cutoff is configured with no default.

## Model

| member | source | states |
|---|---|---|
| Entities.ExpiryBoundary | src/main/java/com/app/booking/entity/UserPackage.java:78-80 | A package is not expired at its expiry minute and is expired one minute later; once expired it stays expired |
| Entities.ActiveMeans | src/main/java/com/app/booking/entity/UserPackage.java:82-84 | isActive holds exactly when the status is ACTIVE, the expiry date has not passed and at least one credit remains; an active package was active at every earlier time |
| Entities.NewUserPackageIsActive | src/main/java/com/app/booking/entity/UserPackage.java:61-71 | The constructor gives an ACTIVE entry bought now with the given credits, expiry and price, within the non-negative credit constraint, and usable exactly when it has credits and is not yet expired |
| LegacyEntities.ExpiryBoundary | src/main/java/com/bookingsystem/entity/UserPackage.java:95-97 | Same expiry boundary and monotonicity for the older entity |
| LegacyEntities.ActiveMeans | src/main/java/com/bookingsystem/entity/UserPackage.java:99-101 | isActive holds exactly when the entry is ACTIVE, not past expiry and has credits left |
| LegacyEntities.NewUserPackageIsActive | src/main/java/com/bookingsystem/entity/UserPackage.java:38-57 | The older constructor leaves the default ACTIVE status, stamps the purchase time and stores the given credits and expiry |
| LegacyEntities.NewClassBookingIsBooked | src/main/java/com/bookingsystem/entity/ClassBooking.java:47-52 | A new booking is BOOKED at now, with no cancellation time, check-in time or waitlist position |
| ClassBookingRepository.FindByUserAndStatus | src/main/java/com/app/booking/repository/ClassBookingRepository.java:22 | Exactly the member's bookings with that status, in id order |
| ClassBookingRepository.FindByUserAndStatusIn | src/main/java/com/app/booking/repository/ClassBookingRepository.java:23 | Exactly the member's bookings whose status is in the set, in id order |
| ClassBookingRepository.FindByClassScheduleAndStatus | src/main/java/com/app/booking/repository/ClassBookingRepository.java:27 | Exactly the class's bookings with that status |
| ClassBookingRepository.CountByClassScheduleAndStatus | src/main/java/com/app/booking/repository/ClassBookingRepository.java:26 | The count equals the number of the class's bookings with that status |
| ClassBookingRepository.FindFirstByClassScheduleAndStatusOrderByWaitlistPositionAsc | src/main/java/com/app/booking/repository/ClassBookingRepository.java:30-31 | None exactly when no booking matches; otherwise a matching booking whose position is least among all matches |
| ClassBookingRepository.FindMaxWaitlistPositionByClassSchedule | src/main/java/com/app/booking/repository/ClassBookingRepository.java:33-34 | None exactly when no WAITLISTED booking of the class holds a position; otherwise a position that is held and bounds every held one |
| ClassBookingRepository.FindByClassScheduleAndStatusAndWaitlistPositionGreaterThanOrderByWaitlistPositionAsc | src/main/java/com/app/booking/repository/ClassBookingRepository.java:36-37 | Exactly the matching bookings with a position strictly above the bound, without repeats, in ascending position |
| ClassBookingRepository.FindConflictingBookings | src/main/java/com/app/booking/repository/ClassBookingRepository.java:40-44 | Exactly the member's BOOKED/CHECKED_IN bookings whose class starts before the end and ends after the start |
| ClassBookingRepository.FindFutureBookingsByUserPackage | src/main/java/com/app/booking/repository/ClassBookingRepository.java:54-57 | Exactly the package's BOOKED/WAITLISTED bookings for classes starting after now |
| ClassBookingRepository.FindOldBookingsByStatusAndDate | src/main/java/com/app/booking/repository/ClassBookingRepository.java:60-63 | Exactly the bookings with the status whose class ended before the cutoff |
| UserPackageRepository.FindByUserAndPackageEntityCountryOrderByExpiryDateAsc | src/main/java/com/app/booking/repository/UserPackageRepository.java:19 | Exactly the member's packages for the country, without repeats, in ascending expiry |
| UserPackageRepository.FindActivePackagesByUserAndCountry | src/main/java/com/app/booking/repository/UserPackageRepository.java:22-27 | Exactly the member's ACTIVE packages for the country with expiry after now and credits left, in ascending expiry |
| UserPackageRepository.ListedActiveVersusIsActive | src/main/java/com/app/booking/repository/UserPackageRepository.java:22-27 | What the active-package query lists is isActive; the converse holds except at the expiry minute itself, where isActive holds and the query (strict `>`) excludes it |
| UserPackageRepository.FindExpiredActivePackages | src/main/java/com/app/booking/repository/UserPackageRepository.java:30-31 | Exactly the ACTIVE packages with expiry strictly before now, that is, ACTIVE and isExpired |
| UserPackageRepository.SelectSumIsTableSum | src/main/java/com/app/booking/repository/UserPackageRepository.java:37-41 | Summing the credits over the ids a query selects equals summing them over the table's matching rows |
| UserPackageRepository.GetTotalRemainingCreditsByUserAndCountry | src/main/java/com/app/booking/repository/UserPackageRepository.java:37-41 | NULL exactly when no ACTIVE unexpired package of the member in the country exists; otherwise the sum of their credits |
| UserPackageRepository.TableSumBoundsEachRow | src/main/java/com/app/booking/repository/UserPackageRepository.java:37-41 | With non-negative balances, each counted package's balance lies between zero and the total |
| UserPackageRepository.TableSumNonNegative | src/main/java/com/app/booking/repository/UserPackageRepository.java:37-41 | With non-negative balances the total is non-negative |
| UserPackageRepository.FindPackagesExpiringBetween | src/main/java/com/app/booking/repository/UserPackageRepository.java:44-47 | Exactly the ACTIVE packages expiring within the inclusive range, in ascending expiry |
| ClassScheduleRepository.FindByCountryAndStatusOrderByStartTime | src/main/java/com/app/booking/repository/ClassScheduleRepository.java:17 | Exactly the country's classes with the status, in ascending start |
| ClassScheduleRepository.FindByStatusAndEndTimeBefore | src/main/java/com/app/booking/repository/ClassScheduleRepository.java:18 | Exactly the classes with the status that ended strictly before the time |
| ClassScheduleRepository.FindByStatusAndStartTimeBetween | src/main/java/com/app/booking/repository/ClassScheduleRepository.java:19 | Exactly the classes with the status starting within the inclusive range |
| ClassScheduleRepository.FindClassesWithHighWaitlist | src/main/java/com/app/booking/repository/ClassScheduleRepository.java:22-24 | Exactly the SCHEDULED classes whose WAITLISTED count is strictly above the threshold |
| ClassScheduleRepository.FindUpcomingClassesByCountry | src/main/java/com/app/booking/repository/ClassScheduleRepository.java:27-29 | Exactly the country's SCHEDULED classes starting after now, in ascending start |
| ClassScheduleRepository.FindScheduledClassesBetween | src/main/java/com/app/booking/repository/ClassScheduleRepository.java:31-34 | Exactly the SCHEDULED classes starting within the inclusive range |
| RedisLock.SetIfAbsent | src/main/java/com/app/booking/serviceImpl/BookingServiceImpl.java:93-98 | Succeeds exactly when the class is unlocked, and then records the token; otherwise nothing changes |
| RedisLock.CompareAndDelete | src/main/java/com/app/booking/serviceImpl/BookingServiceImpl.java:131-136 | Removes the key only when it still holds this request's token |
| RedisLock.Delete | src/main/java/com/bookingsystem/service/BookingService.java:103-105 | Removes the key whoever holds it and leaves every other key as it was |
| RedisLock.AcquireReleaseRestores | src/main/java/com/app/booking/serviceImpl/BookingServiceImpl.java:93-136 | Acquiring a free lock and releasing it (either way) restores the lock table |
| RedisLock.HeldKeyBlocksOthers | src/main/java/com/app/booking/serviceImpl/BookingServiceImpl.java:93-98 | While a lock is held, another request cannot acquire it nor remove it with its own token |
| RedisLock.ReleaseAfterTakeover | src/main/java/com/app/booking/serviceImpl/BookingServiceImpl.java:131-136 | The main release leaves a lock taken over by another holder in place; the older unconditional delete removes it |
| BookingRules.TimeOverlapsSymmetric | src/main/java/com/app/booking/serviceImpl/BookingServiceImpl.java:278-280 | Overlap is symmetric in its two intervals |
| BookingRules.OverlapMeansSharedMinute | src/main/java/com/app/booking/serviceImpl/BookingServiceImpl.java:278-280 | Two non-empty half-open intervals overlap exactly when they share a minute; back-to-back classes do not overlap |
| BookingRules.HasTimeConflictMeans | src/main/java/com/app/booking/serviceImpl/BookingServiceImpl.java:261-276 | A conflict exists exactly when the member holds a BOOKED/CHECKED_IN booking whose class overlaps, which is exactly when the conflicting-bookings query is non-empty |
| BookingRules.FindSuitableUserPackage | src/main/java/com/app/booking/serviceImpl/BookingServiceImpl.java:282-292 | None exactly when no package of the member in the class's country is ACTIVE, unexpired and has enough credits; otherwise such a package with the earliest expiry among them |
| BookingRules.NextWaitlistPosition | src/main/java/com/app/booking/serviceImpl/BookingServiceImpl.java:294-297 | Strictly above every held waitlist position of the class, and one more than the highest held one, or 1 when none is held |
| BookingRules.DebitMeans | src/main/java/com/app/booking/serviceImpl/BookingServiceImpl.java:299-309 | The balance drops by exactly the amount, only balance and status change, and the status becomes USED_UP exactly when the result is at most zero (or it already was) |
| BookingRules.DebitOfSuitableKeepsLedgerSound | src/main/java/com/app/booking/serviceImpl/BookingServiceImpl.java:299-309 | Debiting a package that passed the suitability filter never makes its balance negative; it stays usable exactly when more than the amount was left |
| BookingRules.RefundMeans | src/main/java/com/app/booking/serviceImpl/BookingServiceImpl.java:311-321 | The balance rises by exactly the amount, and USED_UP becomes ACTIVE exactly when the package is not expired |
| BookingRules.DebitThenRefundRestores | src/main/java/com/app/booking/serviceImpl/BookingServiceImpl.java:299-321 | Refunding what was debited from an ACTIVE unexpired package restores it exactly |
| BookingRules.RefundAfterExpiryDoesNotRevive | src/main/java/com/app/booking/serviceImpl/BookingServiceImpl.java:311-321 | A package used up and then expired gets its balance back on refund but stays USED_UP |
| BookingRules.CompactionMeans | src/main/java/com/app/booking/serviceImpl/BookingServiceImpl.java:363-377 | A null position changes nothing; otherwise exactly the class's waitlisted bookings behind the removed position move up by one, and nothing else changes |
| BookingRules.CompactionClosesGap | src/main/java/com/app/booking/serviceImpl/BookingServiceImpl.java:363-377 | Removing a booking from a dense queue 1..n and compacting at its position leaves a dense queue 1..n-1 |
| BookingRules.Promoted | src/main/java/com/app/booking/serviceImpl/BookingServiceImpl.java:323-361 | The recursive promotion terminates (on the number of queued bookings) and keeps both tables' sizes |
| BookingRules.PromotionTouchesOnlyQueue | src/main/java/com/app/booking/serviceImpl/BookingServiceImpl.java:323-361 | Only waitlisted bookings of the class change, each either promoted to BOOKED with no position or cancelled at now because its package could not pay |
| BookingRules.PromotionPromotesAtMostOne | src/main/java/com/app/booking/serviceImpl/BookingServiceImpl.java:323-361 | At most one waitlisted booking ends BOOKED |
| BookingRules.PromotionOutcome | src/main/java/com/app/booking/serviceImpl/BookingServiceImpl.java:323-361 | Either no credits move and the queue is emptied, or exactly one queued booking whose package is active with enough credits is promoted and that package alone is debited |
| BookingRules.PromotionIsFirstComeFirstServed | src/main/java/com/app/booking/serviceImpl/BookingServiceImpl.java:323-361 | The promoted booking was ahead of every booking left in the queue |
| BookingRules.PromotionKeepsCreditsInRange | src/main/java/com/app/booking/serviceImpl/BookingServiceImpl.java:331-340 | Promotion never drives a balance below zero |
| BookingRules.CompletionSettlesClasses | src/main/java/com/app/booking/serviceImpl/BookingServiceImpl.java:380-421 | Exactly the SCHEDULED classes that ended before now become COMPLETED; each of their bookings ends neither BOOKED nor WAITLISTED, keeps its member, class and package, and a waitlisted one is cancelled at now; all other bookings are unchanged |
| BookingRules.CompletionIsIdempotent | src/main/java/com/app/booking/serviceImpl/BookingServiceImpl.java:380-421 | Running the completion pass twice gives the same tables as running it once |
| BookingRules.IntendedCancellation | src/main/java/com/app/booking/serviceImpl/BookingServiceImpl.java:163-184 | Corrected cancellation, which tests the status before overwriting it; keeps the tables' sizes |
| BookingRules.IntendedCancellationRefundsEarly | src/main/java/com/app/booking/serviceImpl/BookingServiceImpl.java:170-180 | In a class nobody waits for, corrected cancellation of a seat refunds exactly the class's credits when early and nothing when late, and cancels only that booking |
| BookingRules.IntendedCancellationUndoesBooking | src/main/java/com/app/booking/serviceImpl/BookingServiceImpl.java:170-176 | In a class nobody waits for, an early corrected cancellation returns the package to what it was before the booking's debit |
| BookingRules.RefundedLedger | src/main/java/com/app/booking/serviceImpl/BookingServiceImpl.java:163-176 | The refund step of the corrected cancellation: the paying package gains the class's credits when a BOOKED seat is cancelled before the configured cutoff and nothing otherwise; every other package is unchanged |
| BookingRules.IntendedCancellationRefundsThenPromotes | src/main/java/com/app/booking/serviceImpl/BookingServiceImpl.java:170-180 | For any queue, corrected cancellation of a seat ends the booking CANCELLED, applies the refund step, and afterwards either leaves the refunded ledger with an empty queue or makes exactly one paid promotion, of a queued booking that no booking still waiting precedes |
| BookingRules.IntendedCancellationKeepsQueueDense | src/main/java/com/app/booking/serviceImpl/BookingServiceImpl.java:181-184 | Corrected cancellation of a waitlisted booking leaves the queue dense 1..n-1 |
| BookingRules.CompactionKeepsQueue | src/main/java/com/app/booking/serviceImpl/BookingServiceImpl.java:363-377 | Compaction keeps the set of queued bookings |
| BookingRules.PromotedCompacting | src/main/java/com/app/booking/serviceImpl/BookingServiceImpl.java:323-361 | Corrected promotion, which compacts at the position the promoted or skipped booking held; terminates and keeps the tables' sizes |
| BookingRules.CompactingSkipStep | src/main/java/com/app/booking/serviceImpl/BookingServiceImpl.java:349-358 | Skipping an unpayable head shrinks the queue and the corrected promotion continues from the compacted table |
| BookingRules.PromotionWithCompactionKeepsQueueDense | src/main/java/com/app/booking/serviceImpl/BookingServiceImpl.java:323-361 | Corrected promotion of a dense queue 1..n leaves a dense queue 1..m with m at most n |
| BookingRules.PromotionAsWrittenLeavesGap | src/main/java/com/app/booking/serviceImpl/BookingServiceImpl.java:335-347 | On a concrete queue 1,2 the code promotes position 1 and leaves position 2 in place, so position 1 is no longer held |
| BookingRules.ValidateBooking | src/main/java/com/app/booking/serviceImpl/BookingServiceImpl.java:72-87 | Success exactly when the class exists, is SCHEDULED, is at least 30 minutes away, clashes with no held booking and some package can pay, and then it names a suitable package; each failure holds exactly under its own condition, in the source's order |
| BookingRules.ValidationPicksSoonestExpiry | src/main/java/com/app/booking/serviceImpl/BookingServiceImpl.java:282-292 | The package charged expires no later than any other suitable one |
| BookingRules.BookedCountAppend | src/main/java/com/app/booking/repository/ClassBookingRepository.java:26 | Appending a booking raises the class's BOOKED count by one exactly when it is a BOOKED booking of that class |
| BookingRules.AdmissionRespectsCapacity | src/main/java/com/app/booking/serviceImpl/BookingServiceImpl.java:101-126 | The new booking is BOOKED exactly when the BOOKED count is below capacity, which raises the count by one and never past capacity; otherwise it is WAITLISTED behind every held position |
| BookingRules.AdmissionExtendsDenseQueue | src/main/java/com/app/booking/serviceImpl/BookingServiceImpl.java:111-115 | When the class is full, a dense queue 1..n gets the new booking at n+1 and stays dense |
| BookingRules.AdmissionCharges | src/main/java/com/app/booking/serviceImpl/BookingServiceImpl.java:111-126 | A full class moves no credits; otherwise exactly the chosen package loses exactly the required credits and stays non-negative |
| BookingRules.AdmissionKeepsMembersFreeOfClashes | src/main/java/com/app/booking/serviceImpl/BookingServiceImpl.java:71-126 | If no member held two overlapping seats before, none does after a validated booking |
| BookingRules.NoSecondSeatInSameClass | src/main/java/com/app/booking/serviceImpl/BookingServiceImpl.java:261-276 | A member holding a seat in a class cannot book the same class again |
| BookingRules.CheckInCheck | src/main/java/com/app/booking/serviceImpl/BookingServiceImpl.java:198-221 | Passes exactly for the member's own BOOKED, not yet checked-in booking inside [start-before, start+after] of the configured window; "not yet open" exactly when such a booking is checked before start-before, "closed" exactly when it is checked after start+after; an earlier check-in, a non-BOOKED booking, another member's booking and a missing booking each give their own error exactly in that case |
| BookingRules.CancelCheck | src/main/java/com/app/booking/serviceImpl/BookingServiceImpl.java:143-158 | Passes exactly for the member's own booking that is neither CANCELLED nor CHECKED_IN; a missing booking, another member's booking, a CANCELLED one and a CHECKED_IN one each give their own error exactly in that case |
| BookingRules.CheckInAndCancelAreFinal | src/main/java/com/app/booking/serviceImpl/BookingServiceImpl.java:143-221 | After check-in neither check-in nor cancel passes again; after cancel neither passes either |
| BookingServiceImpl.BookingService.constructor | src/main/java/com/app/booking/serviceImpl/BookingServiceImpl.java:50-57 | The service holds the given store and the configured cancellation hours and check-in window |
| BookingServiceImpl.BookingService.BookClass | src/main/java/com/app/booking/serviceImpl/BookingServiceImpl.java:71-138 | A failed validation or a held lock returns that error and changes nothing; otherwise the admitted booking is appended as the next row, the chosen package is charged when a seat is taken, and the lock table ends as it started |
| BookingServiceImpl.BookingService.SaveUnderLock | src/main/java/com/app/booking/serviceImpl/BookingServiceImpl.java:100-129 | Under the lock the booking saved as the next row is WAITLISTED at the next position when the seat count has reached capacity, BOOKED otherwise, and only a BOOKED one debits its package |
| BookingServiceImpl.BookingService.CancelBooking | src/main/java/com/app/booking/serviceImpl/BookingServiceImpl.java:142-188 | The result is the cancel check; on success only that booking becomes CANCELLED at now and no credits or other bookings change (the refund, promotion and compaction branches are dead) |
| BookingServiceImpl.CancellationAsWrittenNeverRefunds | src/main/java/com/app/booking/serviceImpl/BookingServiceImpl.java:165-176 | Built on a one-booking store with the default settings, the service's CancelBooking of a one-credit seat at minute 1000 for a class at minute 3000 ends CANCELLED with the package still at 4 credits, while the corrected rule gives 5 |
| BookingServiceImpl.BookingService.CheckInToClass | src/main/java/com/app/booking/serviceImpl/BookingServiceImpl.java:192-231 | The result is the check-in check; on success only that booking becomes CHECKED_IN at now |
| BookingServiceImpl.BookingService.DeductCreditsFromPackage | src/main/java/com/app/booking/serviceImpl/BookingServiceImpl.java:299-309 | Exactly that ledger row is replaced by its debited value |
| BookingServiceImpl.BookingService.RefundCreditsToPackage | src/main/java/com/app/booking/serviceImpl/BookingServiceImpl.java:311-321 | Exactly that ledger row is replaced by its refunded value |
| BookingServiceImpl.BookingService.PromoteFromWaitlist | src/main/java/com/app/booking/serviceImpl/BookingServiceImpl.java:323-361 | The ledger and bookings end as the promotion function gives them |
| BookingServiceImpl.BookingService.UpdateWaitlistPositions | src/main/java/com/app/booking/serviceImpl/BookingServiceImpl.java:363-377 | The bookings end compacted at the removed position, by a loop over the greater-than query |
| BookingServiceImpl.RenumberBehind | src/main/java/com/app/booking/serviceImpl/BookingServiceImpl.java:370-376 | Moving up by one exactly the rows the greater-than query returned yields the compacted table |
| BookingServiceImpl.BookingService.ProcessCompletedClasses | src/main/java/com/app/booking/serviceImpl/BookingServiceImpl.java:380-421 | Schedules and bookings end as the completion functions give them; no credits move |
| BookingServiceImpl.BookingService.SettleBookingsOfClass | src/main/java/com/app/booking/serviceImpl/BookingServiceImpl.java:392-416 | Every booking of the class is settled (WAITLISTED to CANCELLED at now, BOOKED to NO_SHOW) and no other booking changes |
| BookingServiceImpl.BookingService.CancelWaitlistedOfClass | src/main/java/com/app/booking/serviceImpl/BookingServiceImpl.java:393-404 | Exactly the WAITLISTED bookings of the class become CANCELLED at now; every other row is kept |
| BookingServiceImpl.BookingService.MarkNoShowsOfClass | src/main/java/com/app/booking/serviceImpl/BookingServiceImpl.java:407-416 | Exactly the BOOKED bookings of the class become NO_SHOW; every other row is kept |
| BookingServiceImpl.ShiftedRowsMakeCompaction | src/main/java/com/app/booking/serviceImpl/BookingServiceImpl.java:363-377 | Shifting exactly the rows the greater-than query returns yields the compacted table |
| BookingScheduler.ExpiryMovesNoCredits | src/main/java/com/app/booking/scheduler/BookingScheduler.java:73-80 | The expiry pass changes only statuses, exactly of the ACTIVE packages past expiry, to EXPIRED, and leaves none to be selected again |
| BookingScheduler.ExpiryCancelsOnlyUpcomingReservations | src/main/java/com/app/booking/scheduler/BookingScheduler.java:199-218 | A booking changes exactly when it is upcoming and backed by an expiring package, and is then CANCELLED at now; none stays upcoming, nothing gains a seat, member, class and package are kept |
| BookingScheduler.ExpiryIsIdempotent | src/main/java/com/app/booking/scheduler/BookingScheduler.java:73-82 | A second expiry pass changes neither packages nor bookings |
| BookingScheduler.ExpiryKeepsIntegrity | src/main/java/com/app/booking/scheduler/BookingScheduler.java:65-93 | The expiry pass keeps every reference valid and every balance non-negative |
| BookingScheduler.ArchivableRowsSplit | src/main/java/com/app/booking/scheduler/BookingScheduler.java:107-115 | The archivable bookings number exactly the old CANCELLED plus the old NO_SHOW query results |
| BookingScheduler.Scheduler.ProcessCompletedClasses | src/main/java/com/app/booking/scheduler/BookingScheduler.java:48-56 | The wrapper leaves the store as the completion functions give it |
| BookingScheduler.Scheduler.UpdateExpiredPackages | src/main/java/com/app/booking/scheduler/BookingScheduler.java:65-93 | The count is the number of ACTIVE packages past expiry at the start; packages end expired and bookings cancelled as the expiry functions give them |
| BookingScheduler.Scheduler.CancelFutureBookingsForExpiredPackage | src/main/java/com/app/booking/scheduler/BookingScheduler.java:199-218 | Exactly the package's upcoming BOOKED/WAITLISTED bookings become CANCELLED at now; the promotion test after the overwrite is dead |
| BookingScheduler.Scheduler.CleanupOldBookings | src/main/java/com/app/booking/scheduler/BookingScheduler.java:101-126 | The count is the number of CANCELLED or NO_SHOW bookings whose class ended before the cutoff; the store is not modified |
| LegacyBookingService.HasTimeConflictMeans | src/main/java/com/bookingsystem/service/BookingService.java:177-189 | A conflict exists exactly when the member has a BOOKED booking whose class overlaps; CHECKED_IN bookings never count; a legacy conflict is also a main conflict |
| LegacyBookingService.SuitableAgreesWithMain | src/main/java/com/bookingsystem/service/BookingService.java:191-199 | For a positive requirement the isActive filter agrees with the main filter; a package with no credits is never suitable |
| LegacyBookingService.FindSuitableUserPackage | src/main/java/com/bookingsystem/service/BookingService.java:191-199 | None exactly when no package of the member in the country isActive with enough credits; otherwise such a package with the earliest expiry |
| LegacyBookingService.ValidateBooking | src/main/java/com/bookingsystem/service/BookingService.java:52-71 | Success exactly when the class exists, is SCHEDULED, clashes with no BOOKED booking and some package can pay; each failure holds exactly under its condition; the start time is not checked |
| LegacyBookingService.StartedClassStillBookable | src/main/java/com/bookingsystem/service/BookingService.java:57-60 | A class the main variant refuses as started or closed is accepted by the older one |
| LegacyBookingService.Deducted | src/main/java/com/bookingsystem/service/BookingService.java:96 | The balance drops by exactly the amount and nothing else changes |
| LegacyBookingService.DebitToZeroStaysActive | src/main/java/com/bookingsystem/service/BookingService.java:96-97 | Debiting a package to zero leaves it ACTIVE (though no longer usable), where the main variant marks it USED_UP |
| LegacyBookingService.AdmissionMatchesMain | src/main/java/com/bookingsystem/service/BookingService.java:84-94 | The seat-or-waitlist decision equals the main variant's and never exceeds capacity |
| LegacyBookingService.ChargedPackages | src/main/java/com/bookingsystem/service/BookingService.java:89-98 | A full class moves no credits; otherwise only the chosen package loses exactly the required credits |
| LegacyBookingService.CheckInCheck | src/main/java/com/bookingsystem/service/BookingService.java:143-161 | Passes exactly for the member's own BOOKED booking inside [start-15, start+30]; outside the window is one error, not BOOKED another, another member's booking another, missing another, each exactly in its own case |
| LegacyBookingService.CancelCheck | src/main/java/com/bookingsystem/service/BookingService.java:109-121 | Passes exactly for the member's own booking that is not CANCELLED; a missing booking, another member's booking and an already cancelled one each give their own error exactly in that case |
| LegacyBookingService.CheckedInCanBeCancelled | src/main/java/com/bookingsystem/service/BookingService.java:117-121 | A CHECKED_IN booking may be cancelled here but not in the main variant, and once cancelled it cannot be cancelled again |
| LegacyBookingService.Promoted | src/main/java/com/bookingsystem/service/BookingService.java:206-223 | Promotion keeps both tables' sizes |
| LegacyBookingService.PromotionOutcome | src/main/java/com/bookingsystem/service/BookingService.java:206-223 | An empty queue changes nothing; otherwise the head of the queue becomes BOOKED with no position and its package alone is debited, with no validity check |
| LegacyBookingService.PromotionAsWrittenOverdraws | src/main/java/com/bookingsystem/service/BookingService.java:216-219 | On a concrete package with 0 credits at the head of the queue, promotion leaves -1 credits |
| LegacyBookingService.IntendedCancellation | src/main/java/com/bookingsystem/service/BookingService.java:122-139 | Corrected cancellation, which tests the status before overwriting it; keeps the tables' sizes |
| LegacyBookingService.IntendedCancellationRefundsEarly | src/main/java/com/bookingsystem/service/BookingService.java:129-134 | In a class nobody waits for, corrected cancellation refunds exactly the class's credits for an early cancellation of a seat and nothing otherwise, and cancels only that booking |
| LegacyBookingService.CancellationAsWrittenNeverRefunds | src/main/java/com/bookingsystem/service/BookingService.java:126-134 | Built on a one-booking store with a 4-hour cutoff, the service's CancelBooking of a one-credit seat at minute 1000 for a class at minute 3000 ends CANCELLED with the package still at 4 credits, while the corrected rule gives 5 |
| LegacyBookingService.IntendedCancellationRefundsThenPromotes | src/main/java/com/bookingsystem/service/BookingService.java:126-134 | For any queue, corrected cancellation ends the booking CANCELLED; an early cancellation of a seat refunds the paying package and then promotes the least-position queued booking with its debit, or nobody when the queue is empty; any other cancellation moves no credits |
| LegacyBookingService.LegacyService.BookClass | src/main/java/com/bookingsystem/service/BookingService.java:52-106 | A failed validation or a held lock returns that error and changes nothing; otherwise the admitted booking is appended, the package is charged by plain subtraction when a seat is taken, and the lock table ends as it started |
| LegacyBookingService.LegacyService.SaveUnderLock | src/main/java/com/bookingsystem/service/BookingService.java:84-101 | Under the lock the saved booking is WAITLISTED at the next position when the class is full, otherwise BOOKED with its package debited by plain subtraction; it is the next row |
| LegacyBookingService.LegacyService.CancelBooking | src/main/java/com/bookingsystem/service/BookingService.java:109-140 | The result is the cancel check; on success only that booking becomes CANCELLED at now and no credits move |
| LegacyBookingService.LegacyService.CheckInToClass | src/main/java/com/bookingsystem/service/BookingService.java:143-166 | The result is the check-in check; on success only that booking becomes CHECKED_IN at now |
| LegacyBookingService.LegacyService.PromoteFromWaitlist | src/main/java/com/bookingsystem/service/BookingService.java:206-223 | The ledger and bookings end as the older promotion function gives them |
| PackageServiceImpl.FindByCountryAndStatus | src/main/java/com/app/booking/repository/PackageRepository.java:12 | Exactly the catalogue entries of the country with the status, in id order |
| PackageServiceImpl.GetAvailablePackages | src/main/java/com/app/booking/serviceImpl/PackageServiceImpl.java:37-42 | Exactly the country's ACTIVE packages, without repeats |
| PackageServiceImpl.StatusName | src/main/java/com/app/booking/serviceImpl/PackageServiceImpl.java:112 | The enum name is one of ACTIVE, EXPIRED, USED_UP |
| PackageServiceImpl.StatusNameInjective | src/main/java/com/app/booking/serviceImpl/PackageServiceImpl.java:112 | Distinct statuses show distinct names |
| PackageServiceImpl.DisplayStatus | src/main/java/com/app/booking/serviceImpl/PackageServiceImpl.java:112 | "EXPIRED" whenever the package is expired, the stored status's name otherwise |
| PackageServiceImpl.DisplayStatusMeans | src/main/java/com/app/booking/serviceImpl/PackageServiceImpl.java:112 | "EXPIRED" is shown exactly when expired or stored EXPIRED; "ACTIVE" exactly when stored ACTIVE and not expired, and then the package is isActive if it has credits |
| PackageServiceImpl.Purchased | src/main/java/com/app/booking/serviceImpl/PackageServiceImpl.java:78-86 | The new entry belongs to the buyer, holds the package's credits, expires validityDays after now, records the price and is ACTIVE |
| PackageServiceImpl.PurchasableIffOnSale | src/main/java/com/app/booking/serviceImpl/PackageServiceImpl.java:56-88 | A package is purchasable exactly when it is listed for its country; the bought entry is usable exactly when it carries credits and validity; storing it keeps the tables well formed and balances non-negative |
| PackageServiceImpl.PackageService.PurchasePackage | src/main/java/com/app/booking/serviceImpl/PackageServiceImpl.java:56-88 | Unknown, not-ACTIVE and refused-payment requests fail with their own errors and store nothing; success happens exactly otherwise and appends the new entry as the next ledger row |
| LegacyPackageService.GetAvailablePackages | src/main/java/com/bookingsystem/service/PackageService.java:36-41 | Exactly the country's ACTIVE packages |
| LegacyPackageService.DisplayStatus | src/main/java/com/bookingsystem/service/PackageService.java:109 | "EXPIRED" whenever the package is expired, the stored status's name otherwise |
| LegacyPackageService.PurchaseMatchesMain | src/main/java/com/bookingsystem/service/PackageService.java:53-85 | Listing, displayed status and the purchased entry agree with the main variant; the entry is ACTIVE with the package's credits and expiry validityDays after now |
| LegacyPackageService.PackageService.PurchasePackage | src/main/java/com/bookingsystem/service/PackageService.java:53-85 | Unknown, not-ACTIVE and refused-payment requests fail and store nothing; otherwise the new entry is appended as the next ledger row |

## Left out

- Concurrency and the lock's expiry are not modelled: the per-class lock is a map with no 30/10-second timeout, no multi-node behaviour and no interleaving of requests. Each operation runs atomically on the store.
- Transactions, scheduling intervals and dependency injection are not modelled. A scheduled pass is a method called with `now`.
- Logging is dropped. So are the log-only passes `sendClassReminders` and `systemHealthCheck`, and the notifications.
- Controllers, DTOs, response converters (except the displayed status string), authentication and user look-up are not modelled. Members are identified by id rather than by username.
- The listing operations `getClassSchedules`, `getUserBookings` and `getUserPackages`, and the `findByUserOrderBy…` queries they use, are not modelled. They only read and convert.
- The repository queries not used by the core (check-in and no-show counts, by-instructor and by-class-type listings, the date-range count) are not modelled.
- The `com.bookingsystem` repositories are not modelled separately. Their derived queries have the same meaning as the main ones, which both variants use here.
- The wall clock is not modelled. `LocalDateTime.now()` is the parameter `now`, in minutes; `minusMonths(6)` in the cleanup pass is the parameter `cutoff`.
- The payment provider is not modelled. Its answer is the boolean `paymentSuccess`.
- Lock tokens are not generated. The token built from the username and the clock is the parameter `token`/`lockValue`.
- Prices and paid amounts are carried as integers with no arithmetic. `createdAt`/`updatedAt` stamps are not modelled.
- Java's 32-bit `int` overflow on balances and positions is not modelled: integers are unbounded.
- The try/catch around each scheduler pass is not modelled. It is moot because on a well-formed store no step of a modelled pass can fail.
- A missing member (`findByUsername` failing) is not modelled, because members are ids.
- BookingRules.Promoted: stated by its partner lemmas rather than in its own contract, because its `ensures` only fixes the table sizes and its termination.
- BookingScheduler.Scheduler.CleanupOldBookings: the source counts with two queries and adds; the method's contract states the count as the size of one set, and ArchivableRowsSplit connects the two.

## Findings

| source | as written | input that shows it | evidently intended | confidence | as-written member | corrected member |
|---|---|---|---|---|---|---|
| src/main/java/com/app/booking/serviceImpl/BookingServiceImpl.java:165-184 | The booking's status is set to CANCELLED before it is tested for BOOKED or WAITLISTED, so no refund, promotion or waitlist compaction ever happens | A BOOKED booking of 1 credit on a package with 4 credits, cancelled at minute 1000 for a class starting at minute 3000: the package keeps 4 | Test the status before overwriting it: an early cancellation of a seat refunds (to 5), then promotes; a waitlisted cancellation compacts the queue | high (not executed) | BookingServiceImpl.CancellationAsWrittenNeverRefunds | BookingRules.IntendedCancellationRefundsThenPromotes |
| src/main/java/com/app/booking/serviceImpl/BookingServiceImpl.java:335-347 | Promotion clears the promoted booking's position and then passes that null to the compaction, which returns at once, so the queue keeps a gap at position 1. The defect is latent while promotion is reached only through the dead cancellation branch at :180 | Queue with positions 1 and 2, package able to pay: after promotion position 2 is still 2 and nobody holds 1 | Compact at the position the promoted booking held, keeping the queue dense 1..n-1 | high (not executed) | BookingRules.PromotionAsWrittenLeavesGap | BookingRules.PromotionWithCompactionKeepsQueueDense |
| src/main/java/com/bookingsystem/service/BookingService.java:126-134 | The older cancellation also sets CANCELLED before testing for BOOKED, so the early-cancellation refund and promotion never happen | The same booking of 1 credit on a 4-credit package, cancelled 2000 minutes early with a 4-hour cutoff: the package keeps 4 | Test the status first: refund (to 5) and promote | high (not executed) | LegacyBookingService.CancellationAsWrittenNeverRefunds | LegacyBookingService.IntendedCancellationRefundsThenPromotes |
| src/main/java/com/bookingsystem/service/BookingService.java:216-219 | The older promotion debits the head of the waitlist without checking that its package is active or has enough credits, so a balance can go negative once promotion is reachable (that is, after the cancellation fix above). With bean validation of `@PositiveOrZero` (`src/main/java/com/bookingsystem/entity/UserPackage.java:25`) active, the flush would fail and roll back instead of storing -1 | Head of the queue backed by an ACTIVE package with 0 credits, class costing 1: the package ends at -1 | Check the package as the main variant does before promoting, which keeps every balance non-negative | medium (not executed) | LegacyBookingService.PromotionAsWrittenOverdraws | BookingRules.PromotionKeepsCreditsInRange |
