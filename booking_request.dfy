/** `BookingRequest` (src/main/java/com/cinema/movie/dto/BookingRequest.java):
    the booking request record, the e-mail normalisation its compact
    constructor performs, and the bean-validation bounds the controller
    enforces before the service sees it. */
module Requests {
  import opened Base
  import opened Text

  datatype BookingRequest = BookingRequest(screeningId: int, userEmail: Option<string>, numberOfSeats: int)

  /** The most seats one request may book. */
  const MaxSeatsPerRequest := 10

  /** A string with no surrounding blanks and no upper-case ASCII letter. */
  predicate IsNormalized(e: string) {
    && (e == [] || (!IsTrimmable(e[0]) && !IsTrimmable(e[|e| - 1])))
    && forall i :: 0 <= i < |e| ==> !('A' <= e[i] <= 'Z')
  }

  /** The compact constructor's e-mail rule: `trim().toLowerCase()` on a
      present address, null kept as null. */
  function NormalizeEmail(e: Option<string>): (r: Option<string>)
    ensures r.None? <==> e.None?
    ensures r.Some? ==> IsNormalized(r.value) && |r.value| <= |e.value|
    ensures r.Some? ==> (r.value == [] <==> forall i :: 0 <= i < |e.value| ==> IsTrimmable(e.value[i]))
    ensures r.Some? ==> r.value == Lower(Trim(e.value))
  {
    match e
    case None => None
    case Some(s) =>
      var t := Trim(s);
      LowerKeepsEnds(t);
      Some(Lower(t))
  }

  /** Lower-casing a trimmed string leaves it trimmed. */
  lemma LowerKeepsEnds(t: string)
    requires t == [] || (!IsTrimmable(t[0]) && !IsTrimmable(t[|t| - 1]))
    ensures Lower(t) == [] || (!IsTrimmable(Lower(t)[0]) && !IsTrimmable(Lower(t)[|t| - 1]))
  {
    if t != [] {
      LowerKeepsTrimmable(t[0]);
      LowerKeepsTrimmable(t[|t| - 1]);
    }
  }

  /** A normalised address is its own normalisation. */
  lemma NormalizedIsFixed(e: string)
    requires IsNormalized(e)
    ensures NormalizeEmail(Some(e)) == Some(e)
  {
    TrimOfTrimmed(e);
    assert forall i :: 0 <= i < |e| ==> LowerChar(e[i]) == e[i];
    assert Lower(e) == e;
  }

  /** Normalising twice is normalising once. */
  lemma NormalizeEmailIdempotent(e: Option<string>)
    ensures NormalizeEmail(NormalizeEmail(e)) == NormalizeEmail(e)
  {
    if e.Some? {
      NormalizedIsFixed(NormalizeEmail(e).value);
    }
  }

  /** `new BookingRequest(...)`: the compact constructor rewrites only the
      e-mail; the screening id and seat count are stored as given. */
  function NewBookingRequest(screeningId: int, userEmail: Option<string>, numberOfSeats: int): (r: BookingRequest)
    ensures r.screeningId == screeningId && r.numberOfSeats == numberOfSeats
    ensures r.userEmail == NormalizeEmail(userEmail)
    ensures r.userEmail.None? <==> userEmail.None?
    ensures r.userEmail.Some? ==> IsNormalized(r.userEmail.value)
  {
    BookingRequest(screeningId, NormalizeEmail(userEmail), numberOfSeats)
  }

  /** Constructing a request from a constructed request's fields gives it back. */
  lemma ReconstructionIsIdentity(screeningId: int, userEmail: Option<string>, numberOfSeats: int)
    ensures var r := NewBookingRequest(screeningId, userEmail, numberOfSeats);
            NewBookingRequest(r.screeningId, r.userEmail, r.numberOfSeats) == r
  {
    NormalizeEmailIdempotent(userEmail);
  }

  /** `@NotBlank`: present and not all blanks. */
  predicate IsNotBlank(e: Option<string>) {
    e.Some? && Trim(e.value) != []
  }

  /** The `@NotNull @Min(1)` screening id, the `@NotBlank` e-mail and the
      `@Min(1) @Max(10)` seat count. */
  predicate IsValid(r: BookingRequest)
    ensures IsValid(r) <==>
              && r.screeningId >= 1 && 1 <= r.numberOfSeats <= MaxSeatsPerRequest
              && r.userEmail.Some? && exists i :: 0 <= i < |r.userEmail.value| && !IsTrimmable(r.userEmail.value[i])
  {
    && r.screeningId >= 1
    && IsNotBlank(r.userEmail)
    && 1 <= r.numberOfSeats <= MaxSeatsPerRequest
  }

  /** For a constructed request, `@NotBlank` is "the normalised address is
      not empty", and it holds exactly when the raw address had a non-blank
      code unit. */
  lemma NotBlankAfterNormalization(screeningId: int, userEmail: Option<string>, numberOfSeats: int)
    ensures var r := NewBookingRequest(screeningId, userEmail, numberOfSeats);
            IsNotBlank(r.userEmail) <==> userEmail.Some? && exists i :: 0 <= i < |userEmail.value| && !IsTrimmable(userEmail.value[i])
  {
    var r := NewBookingRequest(screeningId, userEmail, numberOfSeats);
    if r.userEmail.Some? {
      TrimOfTrimmed(r.userEmail.value);
    }
  }
}
