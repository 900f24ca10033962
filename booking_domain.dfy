/** `BookingDomainService` (src/main/java/com/cinema/movie/entity/domain/BookingDomainService.java):
    the lifecycle transitions the services apply to a booking entity, the
    cancellability check, the status messages and the 15-minute expiry rule. */
module BookingDomain {
  import opened Base
  import opened BookingEntity

  /** A PENDING booking expires this many minutes after its creation. */
  const PendingExpiryMinutes := 15

  /** `confirmBooking`: PENDING becomes CONFIRMED stamped at `now`; any other
      status throws IllegalStateException and changes nothing. */
  method ConfirmBooking(b: Booking, now: int) returns (r: Outcome<()>)
    modifies b
    ensures ConfirmStep(old(b.Record()), now).Success? ==> r.Success? && b.Record() == ConfirmStep(old(b.Record()), now).value
    ensures ConfirmStep(old(b.Record()), now).Failure? ==> r == Failure(ConfirmStep(old(b.Record()), now).error) && unchanged(b)
  {
    if b.status != Some(Pending) {
      return Failure(IllegalState("Can only confirm pending bookings"));
    }
    b.status := Some(Confirmed);
    b.confirmedAt := Some(now);
    r := Success(());
  }

  /** `isCancellable`: CONFIRMED or PENDING, exactly when cancelling succeeds. */
  predicate IsCancellable(b: BookingRecord)
    ensures IsCancellable(b) <==> CancelStep(b).Success?
  {
    b.status == Some(Confirmed) || b.status == Some(Pending)
  }

  /** `isNotCancellable`: exactly when cancelling throws. */
  predicate IsNotCancellable(b: BookingRecord)
    ensures IsNotCancellable(b) <==> CancelStep(b).Failure?
  {
    !IsCancellable(b)
  }

  /** `cancelBooking`: throws IllegalStateException exactly when the booking
      is not cancellable; otherwise only the status changes, to CANCELLED. */
  method CancelBooking(b: Booking) returns (r: Outcome<()>)
    modifies b
    ensures r.Success? <==> IsCancellable(old(b.Record()))
    ensures r.Success? ==> b.Record() == old(b.Record()).(status := Some(Cancelled))
    ensures r.Failure? ==> r == Failure(CancelStep(old(b.Record())).error) && unchanged(b)
  {
    if IsNotCancellable(b.Record()) {
      return Failure(IllegalState("Cannot cancel booking in status: " + StatusName(b.status)));
    }
    b.status := Some(Cancelled);
    r := Success(());
  }

  /** `getStatusMessage`: the same mapping as the entity's own
      `getStatusMessage`; the switch throws on a null status. */
  function GetStatusMessage(b: BookingRecord): (m: string)
    requires b.status.Some?
    ensures m == StatusMessageOf(b.status.value)
  {
    match b.status.value
    case Pending => "Prenotazione in corso..."
    case Confirmed => "Prenotazione confermata!"
    case Cancelled => "Prenotazione cancellata"
    case Expired => "Prenotazione scaduta"
  }

  /** `isExpired`: only a PENDING booking can be expired, and it is once now
      is strictly after its creation plus 15 minutes. A PENDING booking
      with a null creation time would throw. */
  function IsExpired(b: BookingRecord, now: int): (expired: bool)
    requires b.status == Some(Pending) ==> b.createdAt.Some?
    ensures b.status != Some(Pending) ==> !expired
    ensures b.status == Some(Pending) ==> (expired <==> b.createdAt.value + PendingExpiryMinutes < now)
  {
    if b.status != Some(Pending) then false
    else
      var expiryTime := b.createdAt.value + PendingExpiryMinutes;
      now > expiryTime
  }

  /** `expireBooking`: PENDING becomes EXPIRED; every other status is left
      as it is, without error. */
  method ExpireBooking(b: Booking)
    modifies b
    ensures b.Record() == ExpireStep(old(b.Record()))
  {
    if b.status == Some(Pending) {
      b.status := Some(Expired);
    }
  }
}
