/** `ScreeningDomainService` (src/main/java/com/cinema/movie/entity/domain/ScreeningDomainService.java):
    the seat-sufficiency check, the in-place reserve and clamped release of
    seats on a screening entity, and the timing gate for new bookings. */
module ScreeningDomain {
  import opened Base
  import opened ScreeningEntity
  import ScreeningRepo

  /** Bookings close this many minutes before the screening starts. */
  const BookingCutoffMinutes := 30

  /** `hasSufficientSeats`: the availability is known and covers the
      request, which is the condition the atomic update and the finder put in
      their `WHERE`. */
  predicate HasSufficientSeats(s: ScreeningRecord, requested: int)
    ensures HasSufficientSeats(s, requested) <==> ScreeningRepo.CoversSeats(s, requested)
    ensures s.availableSeats.None? ==> !HasSufficientSeats(s, requested)
  {
    s.availableSeats.Some? && s.availableSeats.value >= requested
  }

  /** `hasInsufficientSeats`: the availability is unknown or short. */
  predicate HasInsufficientSeats(s: ScreeningRecord, requested: int)
    ensures HasInsufficientSeats(s, requested) <==> s.availableSeats.None? || s.availableSeats.value < requested
  {
    !HasSufficientSeats(s, requested)
  }

  /** The availability `releaseSeats` writes: `min(total, available + seats)`,
      never above the capacity, and an exact increment while there is room. */
  function ReleasedAvailability(total: int, available: int, seats: int): (a: int)
    ensures a <= total
    ensures available + seats <= total ==> a == available + seats
    ensures total < available + seats ==> a == total
  {
    Min(total, available + seats)
  }

  /** Releasing what was just reserved restores the availability. */
  lemma ReserveThenReleaseRestores(total: int, available: int, seats: int)
    requires 0 <= seats <= available <= total
    ensures ReleasedAvailability(total, available - seats, seats) == available
  {
  }

  /** `reserveSeats`: takes `seats` off the availability, or throws
      IllegalArgumentException and changes nothing when there are not enough. */
  method ReserveSeats(s: Screening, seats: int) returns (r: Outcome<()>)
    modifies s
    ensures HasSufficientSeats(old(s.Record()), seats) ==>
              && r.Success?
              && s.Record() == old(s.Record()).(availableSeats := Some(old(s.availableSeats.value) - seats))
              && s.availableSeats.value >= 0
    ensures HasInsufficientSeats(old(s.Record()), seats) ==>
              r == Failure(IllegalArgument("Not enough available seats")) && unchanged(s)
    ensures 0 <= seats && LedgerValid(old(s.Record())) ==> LedgerValid(s.Record())
  {
    if HasInsufficientSeats(s.Record(), seats) {
      return Failure(IllegalArgument("Not enough available seats"));
    }
    s.availableSeats := Some(s.availableSeats.value - seats);
    r := Success(());
  }

  /** `releaseSeats`: gives `seats` back, clamped to the capacity. Unboxing a
      null availability throws, so the caller must hold a loaded screening. */
  method ReleaseSeats(s: Screening, seats: int)
    requires s.availableSeats.Some?
    modifies s
    ensures s.Record() == old(s.Record()).(availableSeats :=
              Some(ReleasedAvailability(s.totalSeats, old(s.availableSeats.value), seats)))
    ensures s.availableSeats.value <= s.totalSeats
    ensures 0 <= seats && LedgerValid(old(s.Record())) ==> LedgerValid(s.Record())
  {
    var newAvailable := s.availableSeats.value + seats;
    var maxSeats := Min(s.totalSeats, newAvailable);
    s.availableSeats := Some(maxSeats);
  }

  /** `hasStarted`: the start time is strictly before now; a started
      screening is past its booking cutoff too. */
  predicate HasStarted(s: ScreeningRecord, now: int)
    ensures HasStarted(s, now) ==> s.startTime - BookingCutoffMinutes < now
  {
    s.startTime < now
  }

  /** `isBookingAllowed`: not yet started, and now is strictly before the
      cutoff 30 minutes ahead of the start. The started check is subsumed by
      the cutoff, so being allowed is exactly being before the cutoff. */
  function IsBookingAllowed(s: ScreeningRecord, now: int): (ok: bool)
    ensures ok <==> now < s.startTime - BookingCutoffMinutes
    ensures ok ==> !HasStarted(s, now)
  {
    if HasStarted(s, now) then false
    else
      var cutoffTime := s.startTime - BookingCutoffMinutes;
      now < cutoffTime
  }

  /** `isBookingNotAllowed`: from 30 minutes before the start onwards. */
  predicate IsBookingNotAllowed(s: ScreeningRecord, now: int)
    ensures IsBookingNotAllowed(s, now) <==> s.startTime - BookingCutoffMinutes <= now
  {
    !IsBookingAllowed(s, now)
  }
}
