/** The `Booking` entity (src/main/java/com/cinema/movie/entity/Booking.java):
    its four-state lifecycle, its row in the `bookings` table and the JPA
    object whose business methods change that state in place. */
module BookingEntity {
  import opened Base

  datatype BookingStatus = Pending | Confirmed | Cancelled | Expired

  /** `getStatusMessage`: a message for each of the four statuses. */
  function StatusMessageOf(s: BookingStatus): (m: string)
    ensures m == "Prenotazione confermata!" <==> s == Confirmed
  {
    match s
    case Pending => "Prenotazione in corso..."
    case Confirmed => "Prenotazione confermata!"
    case Cancelled => "Prenotazione cancellata"
    case Expired => "Prenotazione scaduta"
  }

  /** The messages tell the four statuses apart. */
  lemma StatusMessageInjective(a: BookingStatus, b: BookingStatus)
    requires StatusMessageOf(a) == StatusMessageOf(b)
    ensures a == b
  {
  }

  /** What string concatenation prints for a nullable status (the enum's name). */
  function StatusName(s: Option<BookingStatus>): string {
    match s
    case None => "null"
    case Some(Pending) => "PENDING"
    case Some(Confirmed) => "CONFIRMED"
    case Some(Cancelled) => "CANCELLED"
    case Some(Expired) => "EXPIRED"
  }

  /** `canBeCancelled`: CONFIRMED or PENDING. */
  predicate IsCancellableStatus(s: Option<BookingStatus>) {
    s == Some(Confirmed) || s == Some(Pending)
  }

  /** Position in the lifecycle graph PENDING -> CONFIRMED -> {CANCELLED, EXPIRED}. */
  function Rank(s: BookingStatus): nat {
    match s
    case Pending => 0
    case Confirmed => 1
    case Cancelled => 2
    case Expired => 2
  }

  predicate IsTerminal(s: BookingStatus) {
    s == Cancelled || s == Expired
  }

  /** A row of the `bookings` table. `id` is null until the row is saved. */
  datatype BookingRecord = BookingRecord(
    id: Option<int>,
    screeningId: int,
    userEmail: string,
    numberOfSeats: int,
    totalPrice: int,
    status: Option<BookingStatus>,
    createdAt: Option<int>,
    confirmedAt: Option<int>)

  /** `b` and `c` agree on every field outside the lifecycle (status and its timestamps). */
  predicate SameBooking(b: BookingRecord, c: BookingRecord) {
    && b.id == c.id && b.screeningId == c.screeningId && b.userEmail == c.userEmail
    && b.numberOfSeats == c.numberOfSeats && b.totalPrice == c.totalPrice
  }

  /** `confirm`: a PENDING booking becomes CONFIRMED, stamped at `now`; any
      other status throws IllegalStateException. */
  function ConfirmStep(b: BookingRecord, now: int): (r: Outcome<BookingRecord>)
    ensures r.Success? <==> b.status == Some(Pending)
    ensures r.Success? ==> && r.value.status == Some(Confirmed) && r.value.confirmedAt == Some(now)
                           && SameBooking(b, r.value) && r.value.createdAt == b.createdAt
    ensures r.Failure? ==> r.error == IllegalState("Can only confirm pending bookings")
  {
    if b.status != Some(Pending) then Failure(IllegalState("Can only confirm pending bookings"))
    else Success(b.(status := Some(Confirmed), confirmedAt := Some(now)))
  }

  /** `cancel`: a PENDING or CONFIRMED booking becomes CANCELLED and nothing
      else changes; any other status throws IllegalStateException naming it. */
  function CancelStep(b: BookingRecord): (r: Outcome<BookingRecord>)
    ensures r.Success? <==> IsCancellableStatus(b.status)
    ensures r.Success? ==> r.value == b.(status := Some(Cancelled))
    ensures r.Failure? ==> r.error == IllegalState("Cannot cancel booking in status: " + StatusName(b.status))
  {
    if b.status == Some(Confirmed) || b.status == Some(Pending) then Success(b.(status := Some(Cancelled)))
    else Failure(IllegalState("Cannot cancel booking in status: " + StatusName(b.status)))
  }

  /** `expireBooking`: a PENDING booking becomes EXPIRED; any other booking is
      returned as it is, without error. */
  function ExpireStep(b: BookingRecord): (r: BookingRecord)
    ensures b.status == Some(Pending) ==> r == b.(status := Some(Expired))
    ensures b.status != Some(Pending) ==> r == b
  {
    if b.status == Some(Pending) then b.(status := Some(Expired)) else b
  }

  /** `@PrePersist onCreate`: always stamps the creation time; the status
      defaults to PENDING only when it is null. */
  function OnCreateStep(b: BookingRecord, now: int): (r: BookingRecord)
    ensures r.createdAt == Some(now)
    ensures r.status == if b.status.None? then Some(Pending) else b.status
    ensures SameBooking(b, r) && r.confirmedAt == b.confirmedAt
  {
    b.(createdAt := Some(now), status := if b.status.None? then Some(Pending) else b.status)
  }

  /** CANCELLED and EXPIRED are terminal: confirm and cancel reject them and
      expire leaves them as they are. */
  lemma TerminalStatesAreFinal(b: BookingRecord, now: int)
    requires b.status.Some? && IsTerminal(b.status.value)
    ensures ConfirmStep(b, now).Failure?
    ensures CancelStep(b).Failure?
    ensures ExpireStep(b) == b
  {
  }

  /** Every transition that changes the status moves it strictly forward in
      the lifecycle graph, so no state is ever re-entered. */
  lemma TransitionsMoveForward(b: BookingRecord, now: int)
    requires b.status.Some?
    ensures ConfirmStep(b, now).Success? ==> Rank(b.status.value) < Rank(ConfirmStep(b, now).value.status.value)
    ensures CancelStep(b).Success? ==> Rank(b.status.value) < Rank(CancelStep(b).value.status.value)
    ensures ExpireStep(b).status != b.status ==> Rank(b.status.value) < Rank(ExpireStep(b).status.value)
  {
  }

  /** CONFIRMED is entered only from PENDING, and only by confirm. */
  lemma ConfirmedOnlyFromPending(b: BookingRecord, now: int)
    ensures CancelStep(b).Success? ==> CancelStep(b).value.status != Some(Confirmed)
    ensures ExpireStep(b).status == Some(Confirmed) ==> b.status == Some(Confirmed)
    ensures ConfirmStep(b, now).Success? ==> b.status == Some(Pending)
  {
  }

  /** Confirming twice fails the second time. */
  lemma ConfirmTwiceFails(b: BookingRecord, now: int, later: int)
    requires ConfirmStep(b, now).Success?
    ensures ConfirmStep(ConfirmStep(b, now).value, later).Failure?
  {
  }

  /** Expiring is idempotent. */
  lemma ExpireIdempotent(b: BookingRecord)
    ensures ExpireStep(ExpireStep(b)) == ExpireStep(b)
  {
  }

  /** The JPA entity. The `@ManyToOne` screening is held by its id. */
  class Booking {
    var id: Option<int>
    var screeningId: int
    var userEmail: string
    var numberOfSeats: int
    var totalPrice: int
    var status: Option<BookingStatus>
    var createdAt: Option<int>
    var confirmedAt: Option<int>

    /** The row this entity is flushed to. */
    function Record(): (r: BookingRecord)
      reads this
      ensures r.status == status && r.id == id && r.screeningId == screeningId
      ensures r.numberOfSeats == numberOfSeats && r.userEmail == userEmail
    {
      BookingRecord(id, screeningId, userEmail, numberOfSeats, totalPrice, status, createdAt, confirmedAt)
    }

    /** `new Booking()`: the nullable fields start null; the fields this model
        types as plain values start at zero or empty. */
    constructor ()
      ensures id == None && status == None && createdAt == None && confirmedAt == None
      ensures screeningId == 0 && userEmail == [] && numberOfSeats == 0 && totalPrice == 0
    {
      id, screeningId, userEmail, numberOfSeats, totalPrice := None, 0, [], 0, 0;
      status, createdAt, confirmedAt := None, None, None;
    }

    /** Loads the entity from its row. */
    constructor Load(r: BookingRecord)
      ensures Record() == r
    {
      id, screeningId, userEmail, numberOfSeats, totalPrice := r.id, r.screeningId, r.userEmail, r.numberOfSeats, r.totalPrice;
      status, createdAt, confirmedAt := r.status, r.createdAt, r.confirmedAt;
    }

    /** `@PrePersist onCreate`. */
    method OnCreate(now: int)
      modifies this
      ensures Record() == OnCreateStep(old(Record()), now)
    {
      createdAt := Some(now);
      if status.None? {
        status := Some(Pending);
      }
    }

    /** `getStatusMessage`; the switch throws on a null status. */
    function StatusMessage(): (m: string)
      reads this
      requires status.Some?
      ensures m == StatusMessageOf(status.value)
    {
      match status.value
      case Pending => "Prenotazione in corso..."
      case Confirmed => "Prenotazione confermata!"
      case Cancelled => "Prenotazione cancellata"
      case Expired => "Prenotazione scaduta"
    }

    /** `confirm`. */
    method Confirm(now: int) returns (r: Outcome<()>)
      modifies this
      ensures ConfirmStep(old(Record()), now).Success? ==> r.Success? && Record() == ConfirmStep(old(Record()), now).value
      ensures ConfirmStep(old(Record()), now).Failure? ==> r == Failure(ConfirmStep(old(Record()), now).error) && unchanged(this)
    {
      if status != Some(Pending) {
        return Failure(IllegalState("Can only confirm pending bookings"));
      }
      status := Some(Confirmed);
      confirmedAt := Some(now);
      r := Success(());
    }

    /** `cancel`. */
    method Cancel() returns (r: Outcome<()>)
      modifies this
      ensures CancelStep(old(Record())).Success? ==> r.Success? && Record() == CancelStep(old(Record())).value
      ensures CancelStep(old(Record())).Failure? ==> r == Failure(CancelStep(old(Record())).error) && unchanged(this)
    {
      if status == Some(Confirmed) || status == Some(Pending) {
        status := Some(Cancelled);
        r := Success(());
      } else {
        r := Failure(IllegalState("Cannot cancel booking in status: " + StatusName(status)));
      }
    }

    /** `canBeCancelled`: exactly when `cancel` succeeds. */
    function CanBeCancelled(): (ok: bool)
      reads this
      ensures ok <==> CancelStep(Record()).Success?
    {
      status == Some(Confirmed) || status == Some(Pending)
    }
  }
}
