# Cinema booking core in Dafny

A model of the seat-admission and booking-lifecycle core of the `movie-service`
Spring application. The service sells seats for screenings of movies. It has
four parts:

- a **seat ledger** on each screening: `availableSeats` out of `totalSeats`. It
  changes only through an atomic conditional decrement and a clamped release.
- a **booking lifecycle**: PENDING → CONFIRMED → CANCELLED, and PENDING → EXPIRED.
- an **admission pipeline**. Validation runs first, then the factory reserves
  the seats and builds a CONFIRMED booking, then the booking is saved. All of
  it runs under a per-screening lock kept in a key/value store.
- **cancellation**: look-up, owner check, cancellability check, cancel, and
  release of the seats.

The JPQL and derived queries of the three repositories are modelled as
filter/sum/sort functions over sequences of rows.

The files follow the Java classes:

| file | module | Java source |
|---|---|---|
| `base.dfy` | `Base` | `Option`, the `Outcome` of a call that may throw, the three exception kinds |
| `text.dfy` | `Text` | `Long.toString`, `trim`, ASCII `toLowerCase`, SQL `LIKE`, title collation |
| `sorting.dfy` | `Sorting` | `WHERE` as a filter; `ORDER BY` as a stable insertion sort |
| `screening.dfy` | `ScreeningEntity` | `entity/Screening.java` |
| `booking.dfy` | `BookingEntity` | `entity/Booking.java` |
| `screening_domain.dfy` | `ScreeningDomain` | `entity/domain/ScreeningDomainService.java` |
| `booking_domain.dfy` | `BookingDomain` | `entity/domain/BookingDomainService.java` |
| `screening_repository.dfy` | `ScreeningRepo` | `repository/ScreeningRepository.java` |
| `booking_repository.dfy` | `BookingRepo` | `repository/BookingRepository.java` |
| `movie_repository.dfy` | `MovieRepo` | `repository/MovieRepository.java` |
| `booking_request.dfy` | `Requests` | `dto/BookingRequest.java` |
| `validator.dfy` | `Validation` | `service/booking/BookingValidator.java` |
| `booking_factory.dfy` | `Factory` | `service/booking/BookingFactory.java` |
| `lock_manager.dfy` | `Locking` | `service/booking/DistributedLockManager.java` |
| `booking_service.dfy` | `Service` | `service/BookingService.java` |

## Conventions

- **Time.** `LocalDateTime` is an integer count of minutes. Every wall-clock
  read is an explicit `now` parameter.
- **Money.** `BigDecimal` prices with scale 2 are exact integer cents.
- **Lock token.** The UUID is a `token` parameter.
- **Failures.**
  - A thrown exception is a `Failure` of the `Outcome` datatype, carrying the
    exception kind and its message.
  - A Redis error is a boolean `fault` parameter of the call it hits.
- **Null.** A nullable Java field whose `null` the code distinguishes is an
  `Option`.
- **Entities.**
  - A table row is a datatype: `ScreeningRecord`, `BookingRecord`.
  - The JPA entities `Screening` and `Booking` are classes whose methods
    change their fields in place. Each is proved against a pure step function
    on the row (`ConfirmStep`, `CancelStep`, `ExpireStep`, `OnCreateStep`).
- **Tables.**
  - The `screenings` table is a `map` from id to row.
  - The `bookings` table is a `seq`. Bookings are never deleted, and the
    model assumes that the IDENTITY column hands out ids without gaps, so row
    `i` carries id `i + 1` (`BookingRepo.IdsAreIndices`). This is an
    assumption of the model, not a guarantee of the database (see "Left out").
- **Service methods.**
  - `BookingService.ProcessBooking`, `CreateBooking` and `CancelBooking`
    change the two repositories.
  - Each is proved equal to a function on the tables, `Admission` or
    `Cancellation`.
  - Each keeps the invariant `Service.Consistent`: every seat held by a
    PENDING or CONFIRMED booking is missing from its screening's availability.
  - Freshly created screenings with no bookings are consistent, so no state
    reached by any run of bookings and cancellations overbooks a screening
    (`Service.NoReachableStateOverbooks`).
  - `Cancellation` itself needs only what the schema guarantees
    (`Service.Stored`). On tables whose counts have drifted, the release
    clamp takes effect (`Service.CancellationClampsToCapacity`).

Behaviours of the code that the proofs bring out:

- **Unreachable messages.** `findByIdWithAvailableSeats` already requires
  `availableSeats >= numberOfSeats`. So the validator never reports
  "Proiezione non valida" nor "Solo n posti disponibili". For a request of at
  least one seat it never reports "sold out" either
  (`Validation.FinderMasksAvailabilityMessages`).
- **The factory's "Posti non più disponibili".** In consistent tables it is
  unreachable when calls run one at a time: admission succeeds exactly when
  validation does (`Service.AdmissionSucceedsIffValid`).
- **Wildcards in searches.** `searchMovies` puts the user's title inside a
  `LIKE` pattern unescaped. So `_` and `%` in a searched title are wildcards
  (`MovieRepo.UnderscoreInSearchIsWildcard`). For a title without them the
  search agrees with `findByTitleContainingIgnoreCase`
  (`MovieRepo.SearchByTitleAgreesWithFinder`).
- **Ownership check.**
  - Cancellation compares the stored address, normalised when the request was
    built, with the caller's address by exact `equals`.
  - The caller's address is never normalised (`controller/BookingController.java:92`).
  - So a caller who sends the same address with capitals or surrounding
    blanks is refused (`Validation.RawAddressIsRefused`).
- **Screening methods in the entity test.** `src/test/.../EntityTest.java`
  calls `Screening.hasAvailableSeats`, `reserveSeats` and `releaseSeats`.
  These methods do not exist on the `Screening` entity. The model follows the
  code, where these rules live in `ScreeningDomainService`
  (`ScreeningDomain.ReserveSeats`, `ScreeningDomain.ReleaseSeats`).

## Model

| member | source | states |
|---|---|---|
| ScreeningEntity.Screening.Load | src/main/java/com/cinema/movie/entity/Screening.java:18-45 | the entity loaded from a row holds exactly that row's fields |
| ScreeningEntity.Screening.Record | src/main/java/com/cinema/movie/entity/Screening.java:18-45 | the row flushed from the entity carries its id, capacity and availability |
| ScreeningEntity.Screening.OnCreate | src/main/java/com/cinema/movie/entity/Screening.java:47-53 | createdAt becomes now; a null availability becomes totalSeats and a present one is kept; id, movie, start, total and price are untouched; the new ledger is valid when total >= 0 |
| BookingEntity.OnCreateStep | src/main/java/com/cinema/movie/entity/Booking.java:45-51 | createdAt is always overwritten with now; status becomes PENDING only when it was null; every other field is kept |
| BookingEntity.Booking.OnCreate | src/main/java/com/cinema/movie/entity/Booking.java:45-51 | the entity's new row is `OnCreateStep` of its old row |
| BookingEntity.Booking.Load | src/main/java/com/cinema/movie/entity/Booking.java:16-43 | the entity loaded from a row holds exactly that row's fields |
| BookingEntity.Booking.Record | src/main/java/com/cinema/movie/entity/Booking.java:16-43 | the row flushed from the entity carries its id, screening, address, seats and status |
| BookingEntity.Booking.constructor | src/main/java/com/cinema/movie/entity/Booking.java:14-43 | `new Booking()`: id, status, createdAt and confirmedAt start null |
| BookingEntity.StatusMessageOf | src/main/java/com/cinema/movie/entity/Booking.java:54-61 | a message for each of the four statuses; "Prenotazione confermata!" is CONFIRMED's and no other's |
| BookingEntity.StatusMessageInjective | src/main/java/com/cinema/movie/entity/Booking.java:54-61 | the status-message map is total over the four statuses and tells them apart |
| BookingEntity.Booking.StatusMessage | src/main/java/com/cinema/movie/entity/Booking.java:54-61 | the entity's message is the status's message (CONFIRMED gives "Prenotazione confermata!"); a null status is outside the switch |
| BookingEntity.ConfirmStep | src/main/java/com/cinema/movie/entity/Booking.java:64-70 | succeeds iff the status is PENDING, giving CONFIRMED with confirmedAt = now and all else kept; otherwise IllegalState "Can only confirm pending bookings" |
| BookingEntity.Booking.Confirm | src/main/java/com/cinema/movie/entity/Booking.java:64-70 | on success the entity becomes `ConfirmStep` of its row; on failure it returns that error and the entity is unchanged |
| BookingEntity.CancelStep | src/main/java/com/cinema/movie/entity/Booking.java:72-78 | succeeds iff the status is PENDING or CONFIRMED, and then only the status changes, to CANCELLED; otherwise IllegalState naming the status |
| BookingEntity.Booking.Cancel | src/main/java/com/cinema/movie/entity/Booking.java:72-78 | on success the entity becomes `CancelStep` of its row; on failure it returns that error and the entity is unchanged |
| BookingEntity.Booking.CanBeCancelled | src/main/java/com/cinema/movie/entity/Booking.java:80-82 | true exactly when `cancel` would succeed |
| BookingEntity.ConfirmTwiceFails | src/main/java/com/cinema/movie/entity/Booking.java:64-67 | confirming an already confirmed booking fails |
| BookingEntity.TerminalStatesAreFinal | src/main/java/com/cinema/movie/entity/Booking.java:64-78 | from CANCELLED or EXPIRED, confirm and cancel fail and expire changes nothing |
| BookingEntity.TransitionsMoveForward | src/main/java/com/cinema/movie/entity/Booking.java:64-78 | every status change by confirm, cancel or expire moves strictly forward in PENDING → CONFIRMED → {CANCELLED, EXPIRED} |
| BookingEntity.ConfirmedOnlyFromPending | src/main/java/com/cinema/movie/entity/Booking.java:64-78 | CONFIRMED is entered only by confirm and only from PENDING |
| BookingEntity.ExpireStep | src/main/java/com/cinema/movie/entity/domain/BookingDomainService.java:79-83 | PENDING becomes EXPIRED; any other booking is returned unchanged |
| BookingEntity.ExpireIdempotent | src/main/java/com/cinema/movie/entity/domain/BookingDomainService.java:79-83 | expiring twice is expiring once |
| BookingDomain.ConfirmBooking | src/main/java/com/cinema/movie/entity/domain/BookingDomainService.java:19-25 | PENDING becomes CONFIRMED with confirmedAt = now; any other status gives IllegalState and no change |
| BookingDomain.CancelBooking | src/main/java/com/cinema/movie/entity/domain/BookingDomainService.java:30-35 | fails iff the booking is not cancellable, then with no change; otherwise only the status changes, to CANCELLED |
| BookingDomain.IsCancellable | src/main/java/com/cinema/movie/entity/domain/BookingDomainService.java:40-49 | PENDING or CONFIRMED, exactly the bookings `cancel` accepts |
| BookingDomain.IsNotCancellable | src/main/java/com/cinema/movie/entity/domain/BookingDomainService.java:47-49 | exactly the bookings `cancel` rejects |
| BookingDomain.GetStatusMessage | src/main/java/com/cinema/movie/entity/domain/BookingDomainService.java:54-61 | the same map as the entity's `getStatusMessage` |
| BookingDomain.IsExpired | src/main/java/com/cinema/movie/entity/domain/BookingDomainService.java:66-74 | false for every non-PENDING booking; for PENDING, true iff now > createdAt + 15 minutes, strictly |
| BookingDomain.ExpireBooking | src/main/java/com/cinema/movie/entity/domain/BookingDomainService.java:79-83 | the entity's new row is `ExpireStep` of its old row |
| ScreeningDomain.HasSufficientSeats | src/main/java/com/cinema/movie/entity/domain/ScreeningDomainService.java:16-19 | the availability is known and covers the request, the same condition as the atomic update's `WHERE`; a null availability is never sufficient |
| ScreeningDomain.HasInsufficientSeats | src/main/java/com/cinema/movie/entity/domain/ScreeningDomainService.java:23-25 | the availability is null or below the request |
| ScreeningDomain.ReserveSeats | src/main/java/com/cinema/movie/entity/domain/ScreeningDomainService.java:16-35 | with sufficient seats (known availability >= seats) the availability drops by exactly `seats` and stays >= 0; otherwise IllegalArgument and the screening is unchanged; a valid ledger stays valid |
| ScreeningDomain.ReleasedAvailability | src/main/java/com/cinema/movie/entity/domain/ScreeningDomainService.java:40-44 | never above the capacity; an exact increment while available + seats <= total, the capacity otherwise |
| ScreeningDomain.ReleaseSeats | src/main/java/com/cinema/movie/entity/domain/ScreeningDomainService.java:40-44 | only the availability changes, to min(total, available + seats); a valid ledger stays valid |
| ScreeningDomain.ReserveThenReleaseRestores | src/main/java/com/cinema/movie/entity/domain/ScreeningDomainService.java:30-44 | reserving n seats and releasing them restores the availability |
| ScreeningDomain.HasStarted | src/main/java/com/cinema/movie/entity/domain/ScreeningDomainService.java:49-51 | a started screening is also past its 30-minute cutoff |
| ScreeningDomain.IsBookingNotAllowed | src/main/java/com/cinema/movie/entity/domain/ScreeningDomainService.java:67-69 | not allowed iff now is at or after start − 30 minutes |
| ScreeningDomain.IsBookingAllowed | src/main/java/com/cinema/movie/entity/domain/ScreeningDomainService.java:49-69 | allowed iff now < start − 30 minutes, so allowed implies not started (start < now, strictly) |
| ScreeningRepo.ReserveUpdate | src/main/java/com/cinema/movie/repository/ScreeningRepository.java:42-49 | 1 and available := available − seats exactly when the id exists and available >= seats; otherwise 0 and the table unchanged (a missing id looks like a short one); other rows never change; the result is never negative |
| ScreeningRepo.ScreeningRepository.ReserveSeatsAtomically | src/main/java/com/cinema/movie/repository/ScreeningRepository.java:42-49 | the count returned and the new table are those of `ReserveUpdate` |
| ScreeningRepo.FindByIdWithAvailableSeats | src/main/java/com/cinema/movie/repository/ScreeningRepository.java:52-57 | present iff the id exists with available >= requiredSeats, and then it is that row |
| ScreeningRepo.FinderPredictsReserve | src/main/java/com/cinema/movie/repository/ScreeningRepository.java:42-57 | the finder finds the row exactly when the conditional update would update it |
| ScreeningRepo.ScreeningRepository.Save | src/main/java/com/cinema/movie/repository/ScreeningRepository.java:14 | saving a loaded screening overwrites its row and no other |
| ScreeningRepo.FindAvailableScreenings | src/main/java/com/cinema/movie/repository/ScreeningRepository.java:20-26 | exactly the rows with start > now and available > 0, each as often as stored, by start time |
| ScreeningRepo.FindTodayScreenings | src/main/java/com/cinema/movie/repository/ScreeningRepository.java:29-39 | exactly the rows with startOfDay <= start < endOfDay and available > 0, each as often as stored, by start time |
| ScreeningRepo.FindByMovieIdOrderByStartTime | src/main/java/com/cinema/movie/repository/ScreeningRepository.java:17 | exactly the movie's screenings, each as often as stored, by start time |
| BookingRepo.FindById | src/main/java/com/cinema/movie/repository/BookingRepository.java:14 | present iff some stored row carries the id, and then it is such a row |
| BookingRepo.FindByIdIsIndexing | src/main/java/com/cinema/movie/repository/BookingRepository.java:14 | with IDENTITY ids, `findById(id)` is row id − 1 when 1 <= id <= count, and empty otherwise |
| BookingRepo.BookingRepository.Save | src/main/java/com/cinema/movie/repository/BookingRepository.java:14 | a booking without id runs `onCreate`, gets the next id (ids assumed gap-free) and is appended; one with an id overwrites its row; ids stay equal to positions |
| BookingRepo.CountConfirmedSeatsForScreening | src/main/java/com/cinema/movie/repository/BookingRepository.java:23-29 | the sum of seats of the screening's CONFIRMED bookings: 0 when there are none, and between 0 and the seats its live bookings hold |
| BookingRepo.ConfirmedWithinHeld | src/main/java/com/cinema/movie/repository/BookingRepository.java:23-29 | the confirmed sum lies between 0 and the PENDING+CONFIRMED sum |
| BookingRepo.FindExpiredPendingBookings | src/main/java/com/cinema/movie/repository/BookingRepository.java:32-37 | exactly the PENDING bookings with createdAt < cutoff, strictly, never more often than stored |
| BookingRepo.ExpiredQueryMatchesIsExpired | src/main/java/com/cinema/movie/repository/BookingRepository.java:32-37 | with cutoff = now − 15 minutes, the query returns exactly the stored bookings `isExpired` accepts |
| BookingRepo.FindByUserEmailOrderByCreatedAtDesc | src/main/java/com/cinema/movie/repository/BookingRepository.java:17 | exactly the user's bookings, each as often as stored, newest first |
| BookingRepo.FindByScreeningIdAndStatus | src/main/java/com/cinema/movie/repository/BookingRepository.java:20 | exactly the bookings matching both screening and status, each as often as stored |
| BookingRepo.FindByUserEmailAndMovieId | src/main/java/com/cinema/movie/repository/BookingRepository.java:40 | exactly the user's bookings for a stored screening of the movie, never more often than stored |
| MovieRepo.FindByGenreIgnoreCase | src/main/java/com/cinema/movie/repository/MovieRepository.java:15 | exactly the movies whose genre equals the given one up to case |
| MovieRepo.FindByTitleContainingIgnoreCase | src/main/java/com/cinema/movie/repository/MovieRepository.java:18 | exactly the movies whose title contains the text up to case |
| MovieRepo.FindByDurationBetween | src/main/java/com/cinema/movie/repository/MovieRepository.java:21 | exactly the movies with min <= duration <= max |
| MovieRepo.FindMoviesWithAvailableScreenings | src/main/java/com/cinema/movie/repository/MovieRepository.java:24-31 | exactly the movies with a screening starting after now with available > 0, each as often as stored however many such screenings it has, by title |
| MovieRepo.ConfirmedBookingCount | src/main/java/com/cinema/movie/repository/MovieRepository.java:34-42 | 0 exactly when the movie has no CONFIRMED booking, and never more than the bookings stored |
| MovieRepo.FindMostPopularMovies | src/main/java/com/cinema/movie/repository/MovieRepository.java:34-42 | exactly the movies with a CONFIRMED booking, most confirmed bookings first |
| MovieRepo.SearchMovies | src/main/java/com/cinema/movie/repository/MovieRepository.java:45-58 | exactly the movies passing every given filter (a null one is dropped), each as often as stored, by title |
| MovieRepo.SearchWithoutFiltersReturnsAll | src/main/java/com/cinema/movie/repository/MovieRepository.java:45-58 | with every parameter null the search returns every movie |
| MovieRepo.TitleMatchIsSubstring | src/main/java/com/cinema/movie/repository/MovieRepository.java:48 | for a title without `%` or `_`, the LIKE condition is case-insensitive substring |
| MovieRepo.SearchByTitleAgreesWithFinder | src/main/java/com/cinema/movie/repository/MovieRepository.java:45-58 | a search by a wildcard-free title alone finds the movies `findByTitleContainingIgnoreCase` finds |
| MovieRepo.UnderscoreInSearchIsWildcard | src/main/java/com/cinema/movie/repository/MovieRepository.java:48 | a searched `_` matches any character, unlike the derived finder |
| Requests.NormalizeEmail | src/main/java/com/cinema/movie/dto/BookingRequest.java:28-32 | null stays null; a present address becomes `Lower(Trim(address))`: a contiguous slice of the input with only blanks cut off either end, lower-cased character by character; so it has no surrounding blank and no upper-case letter, and is empty iff the input was all blanks |
| Requests.NormalizedIsFixed | src/main/java/com/cinema/movie/dto/BookingRequest.java:28-32 | a normalised address is left as it is |
| Requests.NormalizeEmailIdempotent | src/main/java/com/cinema/movie/dto/BookingRequest.java:28-32 | normalising twice is normalising once |
| Requests.NewBookingRequest | src/main/java/com/cinema/movie/dto/BookingRequest.java:13-32 | screeningId and numberOfSeats are stored as given; the address is `NormalizeEmail` of the argument, null only if given null |
| Requests.ReconstructionIsIdentity | src/main/java/com/cinema/movie/dto/BookingRequest.java:13-32 | rebuilding a request from its own fields gives it back |
| Requests.IsValid | src/main/java/com/cinema/movie/dto/BookingRequest.java:13-25 | screeningId >= 1, an address present with a non-blank character, and 1 <= numberOfSeats <= 10 |
| Requests.NotBlankAfterNormalization | src/main/java/com/cinema/movie/dto/BookingRequest.java:18-20 | `@NotBlank` holds iff the raw address was present with a non-blank character |
| Validation.ValidateAvailability | src/main/java/com/cinema/movie/service/booking/BookingValidator.java:47-60 | null → "Proiezione non valida", 0 → "Proiezione sold out", short → "Solo n posti disponibili"; success iff sufficient and not 0 |
| Validation.ValidateTiming | src/main/java/com/cinema/movie/service/booking/BookingValidator.java:62-71 | success iff now < start − 30; started → the "iniziate" message, otherwise the "30 minuti" message |
| Validation.ValidateAndGetScreening | src/main/java/com/cinema/movie/service/booking/BookingValidator.java:24-33 | success iff the finder finds the row, its availability is not 0 and booking is allowed, returning the row unchanged; no row → "Proiezione non disponibile"; when availability passes and timing fails, the timing error (started or cutoff) is the one reported |
| Validation.AvailabilityReportedBeforeTiming | src/main/java/com/cinema/movie/service/booking/BookingValidator.java:29-30 | when availability fails its error is the one reported, whatever the timing |
| Validation.FinderMasksAvailabilityMessages | src/main/java/com/cinema/movie/service/booking/BookingValidator.java:24-60 | the pipeline's message is one of not-available, sold-out, started, cutoff; for >= 1 seat not sold-out |
| Validation.ValidateCancellation | src/main/java/com/cinema/movie/service/booking/BookingValidator.java:35-45 | success iff the address matches exactly and the booking is cancellable; a mismatch gives "Non autorizzato" first; otherwise the "non cancellabile" prefix with the status message |
| Validation.RawAddressIsRefused | src/main/java/com/cinema/movie/service/booking/BookingValidator.java:35-38 | the owner's raw, unnormalised address is refused as "Non autorizzato" |
| Factory.CalculateTotalPrice | src/main/java/com/cinema/movie/service/booking/BookingFactory.java:53-55 | non-negative for a non-negative price and count, and at least the unit price for one seat or more |
| Factory.TotalIsSumOfSeatPrices | src/main/java/com/cinema/movie/service/booking/BookingFactory.java:53-55 | the total is the sum of the seat prices, one per seat |
| Factory.BuiltBooking | src/main/java/com/cinema/movie/service/booking/BookingFactory.java:38-50 | the booking built is CONFIRMED, without id, for the screening, the request's address and seats, priced price × seats, created and confirmed at now |
| Factory.CreateBooking | src/main/java/com/cinema/movie/service/booking/BookingFactory.java:27-51 | the reserve runs once with (screening id, seats); 0 rows → "Posti non più disponibili" and nothing built; otherwise a fresh booking equal to `BuiltBooking`, with the seats gone from the table |
| Locking.LockKey | src/main/java/com/cinema/movie/service/booking/DistributedLockManager.java:26-29 | the key starts with "booking:lock:screening:" |
| Locking.LockKeyInjective | src/main/java/com/cinema/movie/service/booking/DistributedLockManager.java:26-29 | distinct screenings use distinct keys |
| Locking.AcquireStep | src/main/java/com/cinema/movie/service/booking/DistributedLockManager.java:43-52 | acquired iff there is no fault and the key is absent, and then the key holds the token; a held key is left as it is; other keys never change |
| Locking.ReleaseStep | src/main/java/com/cinema/movie/service/booking/DistributedLockManager.java:54-74 | the key is deleted iff it holds this token and there is no fault; otherwise nothing changes; other keys never change |
| Locking.ExpireStep | src/main/java/com/cinema/movie/service/booking/DistributedLockManager.java:25 | the 30-second timeout running out removes the key and nothing else |
| Locking.AcquireReleaseRestores | src/main/java/com/cinema/movie/service/booking/DistributedLockManager.java:43-74 | an acquire and a release without faults leave the store as it was |
| Locking.HeldLockExcludes | src/main/java/com/cinema/movie/service/booking/DistributedLockManager.java:43-47 | a held lock cannot be acquired again, whatever the token |
| Locking.StaleReleaseKeepsNewHolder | src/main/java/com/cinema/movie/service/booking/DistributedLockManager.java:57-63 | after the lock expires and is taken by another token, the old holder's release changes nothing |
| Locking.DistributedLockManager.AcquireLock | src/main/java/com/cinema/movie/service/booking/DistributedLockManager.java:43-52 | result and new store are those of `AcquireStep` |
| Locking.DistributedLockManager.ReleaseLock | src/main/java/com/cinema/movie/service/booking/DistributedLockManager.java:54-74 | the new store is that of `ReleaseStep` |
| Locking.DistributedLockManager.ExpireKey | src/main/java/com/cinema/movie/service/booking/DistributedLockManager.java:45-46 | the new store is that of `ExpireStep` |
| Locking.DistributedLockManager.ExecuteWithLock | src/main/java/com/cinema/movie/service/booking/DistributedLockManager.java:28-41 | a failed acquire gives "Sistema occupato, riprova tra poco" and runs nothing; otherwise the operation's outcome is returned unchanged, success or failure, and the release always follows, whether or not it faults |
| Locking.ExecuteWithLockLeavesStore | src/main/java/com/cinema/movie/service/booking/DistributedLockManager.java:28-41 | with no faults and a free key the store ends as it began, and other screenings' keys differ |
| Service.NoOverbooking | src/main/java/com/cinema/movie/service/BookingService.java:47-53 | in consistent tables the confirmed seats are at most the held seats, which are at most the capacity, and the ledger is valid |
| Service.OpenedScreeningsAreConsistent | src/main/java/com/cinema/movie/entity/Screening.java:47-53 | screenings as `onCreate` leaves them (every seat free) with no bookings are consistent |
| Service.Step | src/main/java/com/cinema/movie/service/BookingService.java:47-97 | a booking of a valid request or a cancellation keeps the tables consistent |
| Service.Run | src/main/java/com/cinema/movie/service/BookingService.java:47-97 | any run of such calls, one after another, keeps the tables consistent |
| Service.NoReachableStateOverbooks | src/main/java/com/cinema/movie/service/BookingService.java:47-97 | from freshly created screenings and no bookings, after any run of bookings and cancellations, every screening's confirmed seats ≤ held seats ≤ capacity and 0 ≤ available ≤ total |
| Service.Admission | src/main/java/com/cinema/movie/service/BookingService.java:55-69 | a validation failure returns its error with both tables unchanged; success appends a CONFIRMED booking with the next id, the request's address and seats and the row's price × seats, and takes exactly those seats from the screening |
| Service.AdmissionSucceedsIffValid | src/main/java/com/cinema/movie/service/BookingService.java:55-69 | in consistent tables admission succeeds iff validation does, for the requested screening |
| Service.AdmissionPreservesConsistency | src/main/java/com/cinema/movie/service/BookingService.java:55-69 | admission of a valid request keeps the tables consistent |
| Service.BookingService.ProcessBooking | src/main/java/com/cinema/movie/service/BookingService.java:55-69 | result and both tables are those of `Admission` |
| Service.BookingService.CreateBooking | src/main/java/com/cinema/movie/service/BookingService.java:47-53 | busy error and no change without the lock; otherwise `Admission`, then the release; the tables stay consistent |
| Service.BookingService.constructor | src/main/java/com/cinema/movie/service/BookingService.java:27-39 | the service built over consistent tables starts `Valid` |
| Service.BookingService.GetBooking | src/main/java/com/cinema/movie/service/BookingService.java:71-73 | present iff a stored booking carries the id |
| Service.BookingService.GetUserBookings | src/main/java/com/cinema/movie/service/BookingService.java:75-80 | exactly the user's bookings, newest first |
| Service.Cancellation | src/main/java/com/cinema/movie/service/BookingService.java:82-97 | on any tables the schema allows: unknown id → "Prenotazione non trovata"; a refused check → its error; in both cases nothing changes; success iff the owner matches and the booking is cancellable, then it is CANCELLED and the seats return clamped to the capacity |
| Service.CancellationClampsToCapacity | src/main/java/com/cinema/movie/entity/domain/ScreeningDomainService.java:40-44 | on stored but drifted tables (10 seats, 9 free, a live 3-seat booking) cancellation succeeds and leaves 10 free, not 12 |
| Service.CancelKeepsConsistent | src/main/java/com/cinema/movie/service/BookingService.java:90-91 | in consistent tables the clamp never bites: the release is exactly the booking's seats, and consistency is kept |
| Service.CancellationPreservesConsistency | src/main/java/com/cinema/movie/service/BookingService.java:82-97 | cancellation keeps the tables consistent and gives back exactly the booking's seats |
| Service.BookingService.CancelBooking | src/main/java/com/cinema/movie/service/BookingService.java:82-97 | touches only the two tables, never the lock, and changes them as `Cancellation` says; the tables stay consistent |

## Left out

- **Clock reads.** The wall-clock reads become `now` parameters.
  - `validateTiming` reads the clock up to three times.
  - `createBooking` stamps createdAt and confirmedAt separately.
  - The model uses one `now` per call.
- **Minute granularity.** Time is whole minutes; seconds and nanoseconds of `LocalDateTime` are not modelled.
- **Transactions.**
  - JPA transactions, rollback, flushing and the persistence context are not modelled.
  - A failure in `Admission` returns the tables as they were, which is what a rollback gives.
  - `Service.BookingService.CancelBooking` saves the loaded screening explicitly. The service relies on dirty checking to flush it.
- **Lock and commit order.** The lock is released before the surrounding transaction commits. Separate transactions are not modelled.
- **Concurrency.**
  - Real concurrency, thread interleavings and mutual exclusion across processes are not modelled.
  - The lock store is a sequential `map`.
  - `createBookingAsync` is not modelled, because its only content is running `createBooking` on a virtual thread.
- **Redis.**
  - The 30-second TTL appears only as the explicit `ExpireKey` action.
  - Redis errors are the `fault` flags.
  - UUIDs are the `token` parameter.
- Locking.DistributedLockManager.ExecuteWithLock: takes a pure `() -> Outcome<T>` operation. Dafny cannot pass a method that changes the tables, so `Service.BookingService.CreateBooking` repeats the same acquire / run / release sequence around `ProcessBooking`.
- **DTO mapping.** `BookingResponse.from` is not modelled; the service returns the saved `BookingRecord`.
- **Logging** is not modelled.
- Service.Admission: requires a present address, as do `Factory.BuiltBooking`, `Factory.CreateBooking` and `Service.BookingService.ProcessBooking`. `CreateBooking` requires a request that passes bean validation, as the controller's `@Valid` guarantees.
- `@Email` format validation is not modelled.
- Null `screeningId` and `numberOfSeats` in a request are not modelled (the model's fields are plain integers).
- ScreeningDomain.ReleaseSeats: does not model 32-bit `int` wrap-around of `available + seats`. Integers are unbounded here, and under `Consistent` the sum never exceeds the capacity.
- ScreeningRepo.ReserveUpdate: does not model `int` overflow of the SQL subtraction, for the same reason.
- Factory.CalculateTotalPrice: exact cents; the BigDecimal scale and the `precision = 10` column limit are not modelled.
- **Null-pointer preconditions.** These members require the field whose `null` would throw a `NullPointerException` in the source; the exception itself is not modelled:
  - Validation.ValidateCancellation: requires a non-null status when the owner matches.
  - ScreeningDomain.ReleaseSeats: requires a known availability.
  - BookingDomain.IsExpired: requires createdAt for a PENDING booking.
  - BookingDomain.GetStatusMessage: requires a non-null status.
  - BookingEntity.Booking.StatusMessage: requires a non-null status.
- BookingRepo.BookingRepository.Save: requires a known id or none. Merging a detached booking with an unknown id is not modelled.
- BookingRepo.IdsAreIndices: an assumption, not a database guarantee. An IDENTITY column can skip values, for example after a rolled-back insert. The model hands out ids without gaps, so `findById` is indexing.
- **Text handling.**
  - Lower-casing is ASCII only, and `trim` removes code units <= U+0020, as Java's does.
  - The database's `LOWER`/`UPPER` on non-ASCII text, the `LIKE` escape character and the database's title collation are not modelled; titles are ordered by code unit.
- **Order of ties.**
  - `ORDER BY` ties keep table order.
  - A null `createdAt` sorts last in `findByUserEmailOrderByCreatedAtDesc`; the column is `NOT NULL`.
  - The order of equally popular movies in `findMostPopularMovies` is left to the database.
- **The expiry scheduler.** `findExpiredPendingBookings` and `expireBooking` are modelled. No scheduler calls them, and no service method uses them.
- **Movie entity.** `Movie.java` is not part of this model. `MovieRepo.Movie` keeps only the columns the queries read.
- **Screening side of a booking.** A booking's `@ManyToOne` screening is held as its id.
- **Outside the core.** The controllers, the exception handler, configuration, `MovieService` and the DTOs other than `BookingRequest` are not modelled.
