/** `BookingValidator` (src/main/java/com/cinema/movie/service/booking/BookingValidator.java):
    the read-only admission and cancellation checks. Each check either
    succeeds or throws a `BookingException` with its own message; here it
    returns an `Outcome` whose failure carries that message. */
module Validation {
  import opened Base
  import opened Text
  import opened ScreeningEntity
  import opened ScreeningDomain
  import opened BookingEntity
  import opened BookingDomain
  import opened Requests
  import ScreeningRepo

  const NotAvailableMessage := "Proiezione non disponibile"
  const InvalidScreeningMessage := "Proiezione non valida"
  const SoldOutMessage := "Proiezione sold out"
  const StartedMessage := "Non è possibile prenotare per proiezioni iniziate"
  const CutoffMessage := "Prenotazione chiusa 30 minuti prima dell'inizio"
  const UnauthorizedMessage := "Non autorizzato"
  const NotCancellablePrefix := "Prenotazione non cancellabile: "

  /** "Solo <n> posti disponibili". */
  function OnlyAvailableMessage(available: int): string {
    "Solo " + IntToDecimal(available) + " posti disponibili"
  }

  /** `validateAvailability`: the switch on the nullable availability, then
      the domain sufficiency check. */
  function ValidateAvailability(s: ScreeningRecord, requestedSeats: int): (r: Outcome<()>)
    ensures r.Success? <==> HasSufficientSeats(s, requestedSeats) && s.availableSeats != Some(0)
    ensures s.availableSeats.None? ==> r == Failure(BookingError(InvalidScreeningMessage))
    ensures s.availableSeats == Some(0) ==> r == Failure(BookingError(SoldOutMessage))
    ensures s.availableSeats.Some? && s.availableSeats.value != 0 && s.availableSeats.value < requestedSeats ==>
              r == Failure(BookingError(OnlyAvailableMessage(s.availableSeats.value)))
  {
    match s.availableSeats
    case None => Failure(BookingError(InvalidScreeningMessage))
    case Some(available) =>
      if available == 0 then Failure(BookingError(SoldOutMessage))
      else if HasInsufficientSeats(s, requestedSeats) then Failure(BookingError(OnlyAvailableMessage(available)))
      else Success(())
  }

  /** `validateTiming`: a booking that is not allowed fails with the
      "started" message once the screening has begun and with the cutoff
      message before that. */
  function ValidateTiming(s: ScreeningRecord, now: int): (r: Outcome<()>)
    ensures r.Success? <==> now < s.startTime - BookingCutoffMinutes
    ensures HasStarted(s, now) ==> r == Failure(BookingError(StartedMessage))
    ensures !HasStarted(s, now) && s.startTime - BookingCutoffMinutes <= now ==> r == Failure(BookingError(CutoffMessage))
  {
    if IsBookingNotAllowed(s, now) then
      if HasStarted(s, now) then Failure(BookingError(StartedMessage))
      else Failure(BookingError(CutoffMessage))
    else Success(())
  }

  /** `validateAndGetScreening`: the finder, then availability, then timing;
      the first failing step decides the message. On success the row found
      is returned as it is. */
  function ValidateAndGetScreening(rows: map<int, ScreeningRecord>, request: BookingRequest, now: int)
    : (r: Outcome<ScreeningRecord>)
    ensures r.Success? <==>
              && request.screeningId in rows
              && ScreeningRepo.CoversSeats(rows[request.screeningId], request.numberOfSeats)
              && rows[request.screeningId].availableSeats != Some(0)
              && IsBookingAllowed(rows[request.screeningId], now)
    ensures r.Success? ==> r.value == rows[request.screeningId]
    ensures !(request.screeningId in rows && ScreeningRepo.CoversSeats(rows[request.screeningId], request.numberOfSeats)) ==>
              r == Failure(BookingError(NotAvailableMessage))
    ensures request.screeningId in rows && ScreeningRepo.CoversSeats(rows[request.screeningId], request.numberOfSeats)
            && ValidateAvailability(rows[request.screeningId], request.numberOfSeats).Success?
            && ValidateTiming(rows[request.screeningId], now).Failure? ==>
              r == Failure(ValidateTiming(rows[request.screeningId], now).error)
    ensures r.Failure? ==> r.error.BookingError?
  {
    match ScreeningRepo.FindByIdWithAvailableSeats(rows, request.screeningId, request.numberOfSeats)
    case None => Failure(BookingError(NotAvailableMessage))
    case Some(screening) =>
      match ValidateAvailability(screening, request.numberOfSeats)
      case Failure(e) => Failure(e)
      case Success(_) =>
        match ValidateTiming(screening, now)
        case Failure(e) => Failure(e)
        case Success(_) => Success(screening)
  }

  /** Availability is checked before timing: when both would fail, the
      availability message is the one reported. */
  lemma AvailabilityReportedBeforeTiming(rows: map<int, ScreeningRecord>, request: BookingRequest, now: int)
    requires request.screeningId in rows
    requires ScreeningRepo.CoversSeats(rows[request.screeningId], request.numberOfSeats)
    requires ValidateAvailability(rows[request.screeningId], request.numberOfSeats).Failure?
    ensures ValidateAndGetScreening(rows, request, now) ==
              Failure(ValidateAvailability(rows[request.screeningId], request.numberOfSeats).error)
  {
  }

  /** Behind the finder the availability is known and covers the request,
      so the pipeline never reports "Proiezione non valida" nor "Solo n posti
      disponibili", and for a request of at least one seat not "sold out"
      either. */
  lemma FinderMasksAvailabilityMessages(rows: map<int, ScreeningRecord>, request: BookingRequest, now: int)
    ensures var r := ValidateAndGetScreening(rows, request, now);
            r.Failure? ==> r.error.message in {NotAvailableMessage, SoldOutMessage, StartedMessage, CutoffMessage}
    ensures var r := ValidateAndGetScreening(rows, request, now);
            r.Failure? && request.numberOfSeats >= 1 ==> r.error.message in {NotAvailableMessage, StartedMessage, CutoffMessage}
  {
    var r := ValidateAndGetScreening(rows, request, now);
    if r.Failure? && request.screeningId in rows && ScreeningRepo.CoversSeats(rows[request.screeningId], request.numberOfSeats) {
      var s := rows[request.screeningId];
      assert ValidateAvailability(s, request.numberOfSeats).Success? || s.availableSeats == Some(0);
    }
  }

  /** `validateCancellation`: ownership is exact string equality and is
      checked first; then a booking that is not cancellable fails with its
      status message. Building that message throws on a null status. */
  function ValidateCancellation(b: BookingRecord, userEmail: string): (r: Outcome<()>)
    requires b.userEmail == userEmail ==> b.status.Some?
    ensures r.Success? <==> b.userEmail == userEmail && IsCancellable(b)
    ensures b.userEmail != userEmail ==> r == Failure(BookingError(UnauthorizedMessage))
    ensures b.userEmail == userEmail && !IsCancellable(b) ==>
              r == Failure(BookingError(NotCancellablePrefix + StatusMessageOf(b.status.value)))
  {
    if b.userEmail != userEmail then Failure(BookingError(UnauthorizedMessage))
    else if IsNotCancellable(b) then Failure(BookingError(NotCancellablePrefix + GetStatusMessage(b)))
    else Success(())
  }

  /** Ownership compares the stored, normalised address with the caller's
      address as given: a caller who repeats the raw address used at booking
      time, with blanks or capitals in it, is refused. */
  lemma RawAddressIsRefused(b: BookingRecord, raw: string)
    requires NormalizeEmail(Some(raw)) == Some(b.userEmail)
    requires !IsNormalized(raw)
    ensures ValidateCancellation(b, raw) == Failure(BookingError(UnauthorizedMessage))
  {
  }
}
