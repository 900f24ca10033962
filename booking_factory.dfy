/** `BookingFactory` (src/main/java/com/cinema/movie/service/booking/BookingFactory.java):
    reserves the seats with the atomic update, then builds the booking and
    confirms it. */
module Factory {
  import opened Base
  import opened ScreeningEntity
  import opened BookingEntity
  import opened BookingDomain
  import opened Requests
  import opened ScreeningRepo

  const SeatsGoneMessage := "Posti non più disponibili"

  /** `calculateTotalPrice`: the unit price in cents times the seat count,
      exact as `BigDecimal.multiply` is: two seats at 10.00 cost 20.00. */
  function CalculateTotalPrice(price: int, numberOfSeats: int): (total: int)
    ensures 0 <= price && 0 <= numberOfSeats ==> 0 <= total
    ensures 0 <= price && 1 <= numberOfSeats ==> price <= total
  {
    price * numberOfSeats
  }

  /** The price of `n` seats added up one seat at a time. */
  function SeatPrices(price: int, n: nat): int {
    if n == 0 then 0 else SeatPrices(price, n - 1) + price
  }

  /** The total is what the seats cost one by one. */
  lemma {:induction false} TotalIsSumOfSeatPrices(price: int, n: nat)
    ensures CalculateTotalPrice(price, n) == SeatPrices(price, n)
  {
    if n > 0 {
      TotalIsSumOfSeatPrices(price, n - 1);
      assert price * n == price * (n - 1) + price;
    }
  }

  /** The booking `createBooking` returns, before it is saved: a CONFIRMED
      booking of the request's seats for the screening, created and
      confirmed at `now`. */
  function BuiltBooking(request: BookingRequest, screening: ScreeningRecord, now: int): (b: BookingRecord)
    requires request.userEmail.Some?
    ensures b.id.None? && b.status == Some(Confirmed)
    ensures b.screeningId == screening.id && b.userEmail == request.userEmail.value
    ensures b.numberOfSeats == request.numberOfSeats
    ensures b.totalPrice == CalculateTotalPrice(screening.price, request.numberOfSeats)
    ensures b.createdAt == Some(now) && b.confirmedAt == Some(now)
  {
    var pending := BookingRecord(None, screening.id, request.userEmail.value, request.numberOfSeats,
                                 CalculateTotalPrice(screening.price, request.numberOfSeats), Some(Pending), Some(now), None);
    ConfirmStep(pending, now).value
  }

  /** `createBooking`: the atomic reserve runs first, once, for the
      screening's id and the request's seat count. When it updates no row
      the call fails and nothing is built; otherwise the table has lost
      exactly those seats and the new entity holds `BuiltBooking`. */
  method CreateBooking(screenings: ScreeningRepository, request: BookingRequest, screening: ScreeningRecord, now: int)
    returns (r: Outcome<Booking>)
    requires request.userEmail.Some?
    modifies screenings
    ensures screenings.rows == ReserveUpdate(old(screenings.rows), screening.id, request.numberOfSeats).1
    ensures r.Success? <==> ReserveUpdate(old(screenings.rows), screening.id, request.numberOfSeats).0 == 1
    ensures r.Failure? ==> r == Failure(BookingError(SeatsGoneMessage))
    ensures r.Success? ==> fresh(r.value) && r.value.Record() == BuiltBooking(request, screening, now)
  {
    var updatedRows := screenings.ReserveSeatsAtomically(screening.id, request.numberOfSeats);
    if updatedRows == 0 {
      return Failure(BookingError(SeatsGoneMessage));
    }
    var booking := new Booking();
    booking.screeningId := screening.id;
    booking.userEmail := request.userEmail.value;
    booking.numberOfSeats := request.numberOfSeats;
    booking.totalPrice := CalculateTotalPrice(screening.price, request.numberOfSeats);
    booking.status := Some(Pending);
    booking.createdAt := Some(now);
    var _ := ConfirmBooking(booking, now);
    r := Success(booking);
  }
}
