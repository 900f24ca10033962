/** The `Screening` entity (src/main/java/com/cinema/movie/entity/Screening.java):
    a row of the `screenings` table and the JPA object loaded from it. */
module ScreeningEntity {
  import opened Base

  /** A row of the `screenings` table. `availableSeats` is a nullable
      `Integer`; `createdAt` is null until the row is first persisted. */
  datatype ScreeningRecord = ScreeningRecord(
    id: int,
    movieId: int,
    startTime: int,
    totalSeats: int,
    availableSeats: Option<int>,
    price: int,
    createdAt: Option<int>)

  /** The seat ledger invariant of one screening: 0 <= available <= total. */
  predicate LedgerValid(s: ScreeningRecord) {
    s.availableSeats.Some? && 0 <= s.availableSeats.value <= s.totalSeats
  }

  /** The managed entity; the domain services change its fields in place. */
  class Screening {
    var id: int
    var movieId: int
    var startTime: int
    var totalSeats: int
    var availableSeats: Option<int>
    var price: int
    var createdAt: Option<int>

    /** The row this entity is flushed to. */
    function Record(): (r: ScreeningRecord)
      reads this
      ensures r.id == id && r.availableSeats == availableSeats && r.totalSeats == totalSeats
    {
      ScreeningRecord(id, movieId, startTime, totalSeats, availableSeats, price, createdAt)
    }

    /** Loads the entity from its row. */
    constructor Load(r: ScreeningRecord)
      ensures Record() == r
    {
      id, movieId, startTime, totalSeats := r.id, r.movieId, r.startTime, r.totalSeats;
      availableSeats, price, createdAt := r.availableSeats, r.price, r.createdAt;
    }

    /** `@PrePersist onCreate`: stamps the creation time and, when no
        availability was given, starts with every seat available. */
    method OnCreate(now: int)
      modifies this
      ensures createdAt == Some(now)
      ensures old(availableSeats).None? ==> availableSeats == Some(totalSeats)
      ensures old(availableSeats).Some? ==> availableSeats == old(availableSeats)
      ensures id == old(id) && movieId == old(movieId) && startTime == old(startTime)
      ensures totalSeats == old(totalSeats) && price == old(price)
      ensures old(availableSeats).None? && 0 <= totalSeats ==> LedgerValid(Record())
    {
      createdAt := Some(now);
      if availableSeats.None? {
        availableSeats := Some(totalSeats);
      }
    }
  }
}
