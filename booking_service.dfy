/** `BookingService` (src/main/java/com/cinema/movie/service/BookingService.java):
    booking creation under the per-screening lock, cancellation with the
    seat release, and the two read paths. Each state-changing method is
    proved against a function on the two tables (`Admission`,
    `Cancellation`), and both functions keep the tables `Consistent`: every
    seat a live booking holds is missing from its screening's availability,
    so no screening is ever overbooked. */
module Service {
  import opened Base
  import opened ScreeningEntity
  import opened BookingEntity
  import opened ScreeningDomain
  import opened BookingDomain
  import opened Requests
  import opened Validation
  import opened Factory
  import opened Locking
  import ScreeningRepo
  import BookingRepo
  import Sorting

  const NotFoundMessage := "Prenotazione non trovata"

  /** The availability of `s` is known, not negative, and leaves room for
      the `held` seats its live bookings hold. */
  predicate SeatsAccountedFor(s: ScreeningRecord, held: int) {
    s.availableSeats.Some? && 0 <= s.availableSeats.value && s.availableSeats.value + held <= s.totalSeats
  }

  /** A stored booking: at least one seat, a screening that exists, and the
      non-null status and creation time the columns demand. */
  predicate WellFormedBooking(b: BookingRecord, screenings: map<int, ScreeningRecord>) {
    b.numberOfSeats >= 1 && b.screeningId in screenings && b.status.Some? && b.createdAt.Some?
  }

  /** What the schema alone guarantees of a stored booking: its screening
      exists (the foreign key) with a known availability, and its status is
      set (both columns are `NOT NULL`). */
  predicate StoredBooking(b: BookingRecord, screenings: map<int, ScreeningRecord>) {
    b.screeningId in screenings && screenings[b.screeningId].availableSeats.Some? && b.status.Some?
  }

  /** Tables as the database may hold them, whatever their seat counts. */
  ghost predicate Stored(screenings: map<int, ScreeningRecord>, bookings: seq<BookingRecord>) {
    && BookingRepo.IdsAreIndices(bookings)
    && (forall i :: 0 <= i < |bookings| ==> StoredBooking(bookings[i], screenings))
  }

  /** The invariant the service keeps over the two tables. */
  ghost predicate Consistent(screenings: map<int, ScreeningRecord>, bookings: seq<BookingRecord>) {
    && Stored(screenings, bookings)
    && (forall k :: k in screenings ==> screenings[k].id == k)
    && (forall i :: 0 <= i < |bookings| ==> WellFormedBooking(bookings[i], screenings))
    && (forall k :: k in screenings ==> SeatsAccountedFor(screenings[k], BookingRepo.SeatsHeld(bookings, k)))
  }

  /** No overbooking: the live bookings of a screening, and its CONFIRMED
      ones in particular, never hold more seats than it has, and its own
      ledger stays within 0..total. */
  lemma NoOverbooking(screenings: map<int, ScreeningRecord>, bookings: seq<BookingRecord>, k: int)
    requires Consistent(screenings, bookings)
    requires k in screenings
    ensures 0 <= BookingRepo.CountConfirmedSeatsForScreening(bookings, k) <= BookingRepo.SeatsHeld(bookings, k)
    ensures BookingRepo.SeatsHeld(bookings, k) <= screenings[k].totalSeats
    ensures LedgerValid(screenings[k])
  {
    BookingRepo.SeatsWhereBounds(bookings, BookingRepo.HoldersOf(k));
  }

  /** `processBooking` on the tables: validate, reserve, build, save. Any
      failure leaves both tables as they were. */
  function Admission(screenings: map<int, ScreeningRecord>, bookings: seq<BookingRecord>, request: BookingRequest, now: int)
    : (r: (Outcome<BookingRecord>, map<int, ScreeningRecord>, seq<BookingRecord>))
    requires request.userEmail.Some?
    ensures ValidateAndGetScreening(screenings, request, now).Failure? ==>
              r == (Failure(ValidateAndGetScreening(screenings, request, now).error), screenings, bookings)
    ensures r.0.Failure? ==> r.1 == screenings && r.2 == bookings
    ensures r.0.Success? ==>
              && r.2 == bookings + [r.0.value]
              && r.0.value.id == Some(|bookings| + 1)
              && r.0.value.status == Some(Confirmed)
              && r.0.value.userEmail == request.userEmail.value
              && r.0.value.numberOfSeats == request.numberOfSeats
              && r.0.value.createdAt == Some(now) && r.0.value.confirmedAt == Some(now)
    ensures r.0.Success? ==>
              var sid := r.0.value.screeningId;
              && sid in screenings && screenings[sid].availableSeats.Some?
              && r.1 == screenings[sid := screenings[sid].(availableSeats := Some(screenings[sid].availableSeats.value - request.numberOfSeats))]
              && request.screeningId in screenings
              && r.0.value.totalPrice == CalculateTotalPrice(screenings[request.screeningId].price, request.numberOfSeats)
  {
    match ValidateAndGetScreening(screenings, request, now)
    case Failure(e) => (Failure(e), screenings, bookings)
    case Success(screening) =>
      var reserved := ScreeningRepo.ReserveUpdate(screenings, screening.id, request.numberOfSeats);
      if reserved.0 == 0 then (Failure(BookingError(SeatsGoneMessage)), screenings, bookings)
      else
        var saved := OnCreateStep(BuiltBooking(request, screening, now), now).(id := Some(|bookings| + 1));
        assert reserved.1 == screenings[screening.id := screenings[screening.id].(availableSeats :=
                 Some(screenings[screening.id].availableSeats.value - request.numberOfSeats))];
        (Success(saved), reserved.1, bookings + [saved])
  }

  /** In consistent tables the conditional update never misses after the
      validation passed: admission succeeds exactly when validation does,
      and the booking is for the requested screening. */
  lemma AdmissionSucceedsIffValid(screenings: map<int, ScreeningRecord>, bookings: seq<BookingRecord>,
                                  request: BookingRequest, now: int)
    requires Consistent(screenings, bookings)
    requires request.userEmail.Some?
    ensures Admission(screenings, bookings, request, now).0.Success? <==> ValidateAndGetScreening(screenings, request, now).Success?
    ensures Admission(screenings, bookings, request, now).0.Success? ==>
              Admission(screenings, bookings, request, now).0.value.screeningId == request.screeningId
  {
  }

  /** Admission keeps the tables consistent: the seats it takes from the
      screening are exactly the seats the new CONFIRMED booking holds. */
  lemma AdmissionPreservesConsistency(screenings: map<int, ScreeningRecord>, bookings: seq<BookingRecord>,
                                      request: BookingRequest, now: int)
    requires Consistent(screenings, bookings)
    requires IsValid(request)
    ensures var r := Admission(screenings, bookings, request, now);
            Consistent(r.1, r.2)
  {
    var r := Admission(screenings, bookings, request, now);
    if r.0.Success? {
      AdmissionSucceedsIffValid(screenings, bookings, request, now);
      var saved := r.0.value;
      var sid := saved.screeningId;
      assert ValidateAndGetScreening(screenings, request, now).Success?;
      assert ScreeningRepo.CoversSeats(screenings[sid], request.numberOfSeats);
      forall k | k in r.1
        ensures SeatsAccountedFor(r.1[k], BookingRepo.SeatsHeld(r.2, k))
      {
        BookingRepo.SeatsWhereAppend(bookings, saved, BookingRepo.HoldersOf(k));
        assert BookingRepo.HoldersOf(k)(saved) <==> k == sid;
        assert BookingRepo.SeatsHeld(r.2, k) == BookingRepo.SeatsHeld(bookings, k) + (if k == sid then saved.numberOfSeats else 0);
      }
      assert BookingRepo.IdsAreIndices(r.2) by {
        assert forall i :: 0 <= i < |bookings| ==> r.2[i] == bookings[i];
      }
      assert forall i :: 0 <= i < |r.2| ==> WellFormedBooking(r.2[i], r.1) by {
        assert forall i :: 0 <= i < |bookings| ==> r.2[i] == bookings[i];
      }
    }
  }

  /** `cancelBooking` on the tables: look the booking up, check the caller
      and the status, cancel it and give its seats back (clamped to the
      capacity). Any failure leaves both tables as they were. */
  function Cancellation(screenings: map<int, ScreeningRecord>, bookings: seq<BookingRecord>, bookingId: int, userEmail: string)
    : (r: (Outcome<BookingRecord>, map<int, ScreeningRecord>, seq<BookingRecord>))
    requires Stored(screenings, bookings)
    ensures !(1 <= bookingId <= |bookings|) ==> r == (Failure(BookingError(NotFoundMessage)), screenings, bookings)
    ensures 1 <= bookingId <= |bookings| ==>
              var b := bookings[bookingId - 1];
              && (r.0.Success? <==> b.userEmail == userEmail && IsCancellable(b))
              && (r.0.Failure? ==> r == (Failure(ValidateCancellation(b, userEmail).error), screenings, bookings))
              && (r.0.Success? ==>
                    var s := screenings[b.screeningId];
                    && r.0.value == b.(status := Some(Cancelled))
                    && r.2 == bookings[bookingId - 1 := r.0.value]
                    && r.1 == screenings[b.screeningId := s.(availableSeats :=
                                Some(ReleasedAvailability(s.totalSeats, s.availableSeats.value, b.numberOfSeats)))])
  {
    BookingRepo.FindByIdIsIndexing(bookings, bookingId);
    match BookingRepo.FindById(bookings, bookingId)
    case None => (Failure(BookingError(NotFoundMessage)), screenings, bookings)
    case Some(b) =>
      match ValidateCancellation(b, userEmail)
      case Failure(e) => (Failure(e), screenings, bookings)
      case Success(_) =>
        var cancelled := CancelStep(b).value;
        var s := screenings[b.screeningId];
        var released := s.(availableSeats := Some(ReleasedAvailability(s.totalSeats, s.availableSeats.value, b.numberOfSeats)));
        (Success(cancelled), screenings[b.screeningId := released], bookings[bookingId - 1 := cancelled])
  }

  /** On tables whose counts have drifted, the release is clamped: a screening
      of 10 seats with 9 available and a live 3-seat booking ends at 10 after
      the cancellation, not 12. */
  lemma CancellationClampsToCapacity()
    ensures var screenings := map[1 := ScreeningRecord(1, 7, 600, 10, Some(9), 1000, Some(0))];
            var bookings := [BookingRecord(Some(1), 1, "a@b.it", 3, 3000, Some(Confirmed), Some(0), Some(0))];
            && Stored(screenings, bookings)
            && !Consistent(screenings, bookings)
            && var r := Cancellation(screenings, bookings, 1, "a@b.it");
               r.0.Success? && r.1[1].availableSeats == Some(10)
  {
    var screenings := map[1 := ScreeningRecord(1, 7, 600, 10, Some(9), 1000, Some(0))];
    var bookings := [BookingRecord(Some(1), 1, "a@b.it", 3, 3000, Some(Confirmed), Some(0), Some(0))];
    assert BookingRepo.SeatsHeld(bookings, 1) == 3 by {
      assert bookings[..0] == [];
    }
  }

  /** Cancelling row `i` takes its seats off its screening's held total
      and leaves every other screening's total alone. */
  lemma HeldAfterCancel(bookings: seq<BookingRecord>, i: int, k: int)
    requires 0 <= i < |bookings| && IsCancellable(bookings[i])
    ensures BookingRepo.SeatsHeld(bookings[i := bookings[i].(status := Some(Cancelled))], k) ==
              BookingRepo.SeatsHeld(bookings, k) - (if bookings[i].screeningId == k then bookings[i].numberOfSeats else 0)
  {
    BookingRepo.SeatsWhereUpdate(bookings, i, bookings[i].(status := Some(Cancelled)), BookingRepo.HoldersOf(k));
  }

  /** A live booking's seats are part of its screening's held total. */
  lemma HeldCoversBooking(bookings: seq<BookingRecord>, i: int)
    requires 0 <= i < |bookings| && IsCancellable(bookings[i])
    requires forall j :: 0 <= j < |bookings| ==> bookings[j].numberOfSeats >= 0
    ensures bookings[i].numberOfSeats <= BookingRepo.SeatsHeld(bookings, bookings[i].screeningId)
  {
    var cancelled := bookings[i := bookings[i].(status := Some(Cancelled))];
    HeldAfterCancel(bookings, i, bookings[i].screeningId);
    assert forall j :: 0 <= j < |cancelled| ==> cancelled[j].numberOfSeats == bookings[j].numberOfSeats;
    BookingRepo.SeatsWhereBounds(cancelled, BookingRepo.HoldersOf(bookings[i].screeningId));
  }

  /** In consistent tables the clamp never bites: cancelling a live booking
      gives back exactly its seats, and the tables stay consistent. */
  lemma CancelKeepsConsistent(screenings: map<int, ScreeningRecord>, bookings: seq<BookingRecord>, i: int)
    requires Consistent(screenings, bookings)
    requires 0 <= i < |bookings| && IsCancellable(bookings[i])
    ensures var b := bookings[i];
            var s := screenings[b.screeningId];
            ReleasedAvailability(s.totalSeats, s.availableSeats.value, b.numberOfSeats) == s.availableSeats.value + b.numberOfSeats
    ensures var b := bookings[i];
            var s := screenings[b.screeningId];
            Consistent(screenings[b.screeningId := s.(availableSeats := Some(s.availableSeats.value + b.numberOfSeats))],
                       bookings[i := b.(status := Some(Cancelled))])
  {
    var b := bookings[i];
    var sid := b.screeningId;
    var s := screenings[sid];
    var screenings' := screenings[sid := s.(availableSeats := Some(s.availableSeats.value + b.numberOfSeats))];
    var bookings' := bookings[i := b.(status := Some(Cancelled))];
    HeldCoversBooking(bookings, i);
    forall k | k in screenings'
      ensures SeatsAccountedFor(screenings'[k], BookingRepo.SeatsHeld(bookings', k))
    {
      HeldAfterCancel(bookings, i, k);
    }
  }

  lemma CancellationPreservesConsistency(screenings: map<int, ScreeningRecord>, bookings: seq<BookingRecord>,
                                         bookingId: int, userEmail: string)
    requires Consistent(screenings, bookings)
    ensures var r := Cancellation(screenings, bookings, bookingId, userEmail);
            Consistent(r.1, r.2)
    ensures var r := Cancellation(screenings, bookings, bookingId, userEmail);
            r.0.Success? ==>
              var b := bookings[bookingId - 1];
              r.1[b.screeningId].availableSeats == Some(screenings[b.screeningId].availableSeats.value + b.numberOfSeats)
  {
    var r := Cancellation(screenings, bookings, bookingId, userEmail);
    if r.0.Success? {
      CancelKeepsConsistent(screenings, bookings, bookingId - 1);
    }
  }

  /** A screening as `@PrePersist` leaves it when it was created without an
      availability: every seat is free. */
  predicate Opened(s: ScreeningRecord) {
    s.totalSeats >= 0 && s.availableSeats == Some(s.totalSeats)
  }

  /** The starting state: screenings just created, no bookings yet. */
  lemma OpenedScreeningsAreConsistent(screenings: map<int, ScreeningRecord>)
    requires forall k :: k in screenings ==> screenings[k].id == k && Opened(screenings[k])
    ensures Consistent(screenings, [])
  {
    forall k | k in screenings
      ensures SeatsAccountedFor(screenings[k], BookingRepo.SeatsHeld([], k))
    {
      assert BookingRepo.SeatsHeld([], k) == 0;
    }
  }

  /** A call into the service that changes the tables: a booking request
      that passed bean validation, or a cancellation. A `createBooking`
      refused for a busy lock changes nothing and needs no step of its own. */
  datatype Operation = Book(request: BookingRequest, now: int) | Cancel(bookingId: int, userEmail: string)

  predicate Admissible(op: Operation) {
    op.Book? ==> IsValid(op.request)
  }

  /** One operation on the tables, as `Admission` or `Cancellation` says. */
  function Step(screenings: map<int, ScreeningRecord>, bookings: seq<BookingRecord>, op: Operation)
    : (r: (map<int, ScreeningRecord>, seq<BookingRecord>))
    requires Consistent(screenings, bookings)
    requires Admissible(op)
    ensures Consistent(r.0, r.1)
  {
    match op
    case Book(request, now) =>
      AdmissionPreservesConsistency(screenings, bookings, request, now);
      var a := Admission(screenings, bookings, request, now);
      (a.1, a.2)
    case Cancel(bookingId, userEmail) =>
      CancellationPreservesConsistency(screenings, bookings, bookingId, userEmail);
      var c := Cancellation(screenings, bookings, bookingId, userEmail);
      (c.1, c.2)
  }

  /** The tables after a run of operations, one after another. */
  function Run(screenings: map<int, ScreeningRecord>, bookings: seq<BookingRecord>, ops: seq<Operation>)
    : (r: (map<int, ScreeningRecord>, seq<BookingRecord>))
    requires Consistent(screenings, bookings)
    requires forall i :: 0 <= i < |ops| ==> Admissible(ops[i])
    ensures Consistent(r.0, r.1)
    decreases |ops|
  {
    if ops == [] then (screenings, bookings)
    else
      var next := Step(screenings, bookings, ops[0]);
      Run(next.0, next.1, ops[1..])
  }

  /** No reachable state overbooks a screening: starting from freshly
      created screenings and no bookings, after any run of bookings and
      cancellations every screening's live bookings hold at most its
      capacity, its CONFIRMED seats at most that, and its ledger stays
      within 0..total. */
  lemma {:induction false} NoReachableStateOverbooks(initial: map<int, ScreeningRecord>, ops: seq<Operation>)
    requires forall k :: k in initial ==> initial[k].id == k && Opened(initial[k])
    requires forall i :: 0 <= i < |ops| ==> Admissible(ops[i])
    ensures Consistent(initial, [])
    ensures var r := Run(initial, [], ops);
            forall k :: k in r.0 ==>
              && 0 <= BookingRepo.CountConfirmedSeatsForScreening(r.1, k) <= BookingRepo.SeatsHeld(r.1, k)
              && BookingRepo.SeatsHeld(r.1, k) <= r.0[k].totalSeats
              && LedgerValid(r.0[k])
  {
    OpenedScreeningsAreConsistent(initial);
    var r := Run(initial, [], ops);
    forall k | k in r.0
      ensures 0 <= BookingRepo.CountConfirmedSeatsForScreening(r.1, k) <= BookingRepo.SeatsHeld(r.1, k)
      ensures BookingRepo.SeatsHeld(r.1, k) <= r.0[k].totalSeats
      ensures LedgerValid(r.0[k])
    {
      NoOverbooking(r.0, r.1, k);
    }
  }

  /** The service with the two repositories and the lock manager it uses. */
  class BookingService {
    const screenings: ScreeningRepo.ScreeningRepository
    const bookings: BookingRepo.BookingRepository
    const lockManager: DistributedLockManager

    ghost predicate Valid()
      reads screenings, bookings
    {
      Consistent(screenings.rows, bookings.rows)
    }

    constructor (screenings: ScreeningRepo.ScreeningRepository, bookings: BookingRepo.BookingRepository,
                 lockManager: DistributedLockManager)
      requires Consistent(screenings.rows, bookings.rows)
      ensures this.screenings == screenings && this.bookings == bookings && this.lockManager == lockManager
      ensures Valid()
    {
      this.screenings := screenings;
      this.bookings := bookings;
      this.lockManager := lockManager;
    }

    /** `processBooking`: validation, then the factory, then `save`. */
    method ProcessBooking(request: BookingRequest, now: int) returns (r: Outcome<BookingRecord>)
      requires request.userEmail.Some?
      modifies screenings, bookings
      ensures (r, screenings.rows, bookings.rows) == Admission(old(screenings.rows), old(bookings.rows), request, now)
    {
      var validated := ValidateAndGetScreening(screenings.rows, request, now);
      if validated.Failure? {
        return Failure(validated.error);
      }
      var screening := validated.value;
      var created := Factory.CreateBooking(screenings, request, screening, now);
      if created.Failure? {
        return Failure(created.error);
      }
      var booking := created.value;
      var saved := bookings.Save(booking, now);
      r := Success(saved);
    }

    /** `createBooking`: `processBooking` inside `executeWithLock` on the
      request's screening. A lock that cannot be taken gives the busy error
      and changes neither table; otherwise the tables change as `Admission`
      says and the lock is released afterwards. */
    method CreateBooking(request: BookingRequest, token: string, now: int, acquireFault: bool, releaseFault: bool)
      returns (r: Outcome<BookingRecord>)
      requires Valid()
      requires IsValid(request)
      modifies screenings, bookings, lockManager
      ensures Valid()
      ensures var acquired := AcquireStep(old(lockManager.store), LockKey(request.screeningId), token, acquireFault);
              && (!acquired.0 ==>
                    && r == Failure(BookingError(BusyMessage))
                    && screenings.rows == old(screenings.rows) && bookings.rows == old(bookings.rows)
                    && lockManager.store == old(lockManager.store))
              && (acquired.0 ==>
                    && (r, screenings.rows, bookings.rows) == Admission(old(screenings.rows), old(bookings.rows), request, now)
                    && lockManager.store == ReleaseStep(acquired.1, LockKey(request.screeningId), token, releaseFault))
    {
      var lockKey := LockKey(request.screeningId);
      var acquired := lockManager.AcquireLock(lockKey, token, acquireFault);
      if !acquired {
        return Failure(BookingError(BusyMessage));
      }
      AdmissionPreservesConsistency(screenings.rows, bookings.rows, request, now);
      r := ProcessBooking(request, now);
      lockManager.ReleaseLock(lockKey, token, releaseFault);
    }

    /** `getBooking`: present exactly when a stored booking carries the id. */
    function GetBooking(id: int): (r: Option<BookingRecord>)
      reads bookings
      ensures r.Some? <==> exists i :: 0 <= i < |bookings.rows| && bookings.rows[i].id == Some(id)
      ensures r.Some? ==> r.value in bookings.rows && r.value.id == Some(id)
    {
      BookingRepo.FindById(bookings.rows, id)
    }

    /** `getUserBookings`: exactly that user's bookings, newest first. */
    function GetUserBookings(userEmail: string): (r: seq<BookingRecord>)
      reads bookings
      ensures forall b :: b in r <==> b in bookings.rows && b.userEmail == userEmail
      ensures Sorting.SortedBy(r, BookingRepo.NewerFirst)
    {
      BookingRepo.FindByUserEmailOrderByCreatedAtDesc(bookings.rows, userEmail)
    }

    /** `cancelBooking`: runs without the lock (the lock manager is not in
      its frame) and changes the tables as `Cancellation` says. `now` is
      the clock `save` would hand to `@PrePersist`; a stored booking never
      reaches it. */
    method CancelBooking(bookingId: int, userEmail: string, now: int) returns (r: Outcome<BookingRecord>)
      requires Valid()
      modifies screenings, bookings
      ensures Valid()
      ensures (r, screenings.rows, bookings.rows) == Cancellation(old(screenings.rows), old(bookings.rows), bookingId, userEmail)
    {
      CancellationPreservesConsistency(screenings.rows, bookings.rows, bookingId, userEmail);
      BookingRepo.FindByIdIsIndexing(bookings.rows, bookingId);
      var found := BookingRepo.FindById(bookings.rows, bookingId);
      if found.None? {
        return Failure(BookingError(NotFoundMessage));
      }
      var record := found.value;
      var check := ValidateCancellation(record, userEmail);
      if check.Failure? {
        return Failure(check.error);
      }
      var booking := new Booking.Load(record);
      var _ := BookingDomain.CancelBooking(booking);
      var screening := new Screening.Load(screenings.rows[record.screeningId]);
      ReleaseSeats(screening, booking.numberOfSeats);
      var saved := bookings.Save(booking, now);
      screenings.Save(screening.Record());
      r := Success(saved);
    }
  }
}
