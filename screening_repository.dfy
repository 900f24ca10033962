/** `ScreeningRepository` (src/main/java/com/cinema/movie/repository/ScreeningRepository.java):
    the `screenings` table with its one write path, the atomic conditional
    seat decrement, and its read-only queries. */
module ScreeningRepo {
  import opened Base
  import opened ScreeningEntity
  import opened Sorting

  /** SQL `availableSeats > 0`; a null availability never satisfies it. */
  predicate HasFreeSeats(s: ScreeningRecord) {
    s.availableSeats.Some? && s.availableSeats.value > 0
  }

  /** SQL `availableSeats >= seats`; a null availability never satisfies it. */
  predicate CoversSeats(s: ScreeningRecord, seats: int) {
    s.availableSeats.Some? && s.availableSeats.value >= seats
  }

  /** The `UPDATE ... SET availableSeats = availableSeats - :seats WHERE id =
      :screeningId AND availableSeats >= :seats` statement: the number of rows
      it updates and the table afterwards. A missing id and a short
      availability both give 0 and leave the table as it was. */
  function ReserveUpdate(rows: map<int, ScreeningRecord>, screeningId: int, seats: int)
    : (r: (int, map<int, ScreeningRecord>))
    ensures r.0 == 1 <==> screeningId in rows && CoversSeats(rows[screeningId], seats)
    ensures r.0 == 0 <==> !(screeningId in rows && CoversSeats(rows[screeningId], seats))
    ensures r.0 == 0 ==> r.1 == rows
    ensures r.1.Keys == rows.Keys
    ensures forall k :: k in rows && k != screeningId ==> r.1[k] == rows[k]
    ensures r.0 == 1 ==>
              r.1[screeningId] == rows[screeningId].(availableSeats := Some(rows[screeningId].availableSeats.value - seats))
    ensures r.0 == 1 ==> r.1[screeningId].availableSeats.value >= 0
    ensures 0 <= seats && screeningId in rows && LedgerValid(rows[screeningId]) ==> LedgerValid(r.1[screeningId])
  {
    if screeningId in rows && CoversSeats(rows[screeningId], seats) then
      var s := rows[screeningId];
      (1, rows[screeningId := s.(availableSeats := Some(s.availableSeats.value - seats))])
    else
      (0, rows)
  }

  /** `findByIdWithAvailableSeats`: present exactly when the screening
      exists and has at least `requiredSeats` available. */
  function FindByIdWithAvailableSeats(rows: map<int, ScreeningRecord>, id: int, requiredSeats: int)
    : (r: Option<ScreeningRecord>)
    ensures r.Some? <==> id in rows && CoversSeats(rows[id], requiredSeats)
    ensures r.Some? ==> r.value == rows[id] && r.value.availableSeats.value >= requiredSeats
  {
    if id in rows && CoversSeats(rows[id], requiredSeats) then Some(rows[id]) else None
  }

  /** The finder and the conditional update agree: the update succeeds
      exactly when the finder returns the row. */
  lemma FinderPredictsReserve(rows: map<int, ScreeningRecord>, id: int, seats: int)
    ensures FindByIdWithAvailableSeats(rows, id, seats).Some? <==> ReserveUpdate(rows, id, seats).0 == 1
  {
  }

  /** The `screenings` table, keyed by id. */
  class ScreeningRepository {
    var rows: map<int, ScreeningRecord>

    /** Every row is stored under its own id. */
    ghost predicate Valid()
      reads this
    {
      forall k :: k in rows ==> rows[k].id == k
    }

    constructor (initial: map<int, ScreeningRecord>)
      ensures rows == initial
    {
      rows := initial;
    }

    /** `reserveSeatsAtomically`: runs the conditional update and returns the
        number of rows it changed. */
    method ReserveSeatsAtomically(screeningId: int, seats: int) returns (updated: int)
      modifies this
      ensures (updated, rows) == ReserveUpdate(old(rows), screeningId, seats)
    {
      var r := ReserveUpdate(rows, screeningId, seats);
      updated := r.0;
      rows := r.1;
    }

    /** `save` of a loaded screening: its row is overwritten. */
    method Save(s: ScreeningRecord)
      requires s.id in rows
      modifies this
      ensures rows == old(rows)[s.id := s]
    {
      rows := rows[s.id := s];
    }
  }

  /** `ORDER BY s.startTime`. */
  predicate StartsNoLater(a: ScreeningRecord, b: ScreeningRecord) {
    a.startTime <= b.startTime
  }

  lemma StartOrderIsTotal()
    ensures TotalPreorder(StartsNoLater)
  {
  }

  /** `findAvailableScreenings`: the future screenings with free seats, by start time. */
  function FindAvailableScreenings(rows: seq<ScreeningRecord>, now: int): (r: seq<ScreeningRecord>)
    ensures forall s :: s in r <==> s in rows && s.startTime > now && HasFreeSeats(s)
    ensures forall s :: multiset(r)[s] == if s.startTime > now && HasFreeSeats(s) then multiset(rows)[s] else 0
    ensures SortedBy(r, StartsNoLater)
  {
    var matching := Filter(rows, (s: ScreeningRecord) => s.startTime > now && HasFreeSeats(s));
    StartOrderIsTotal();
    SortBySorted(matching, StartsNoLater);
    SortBy(matching, StartsNoLater)
  }

  /** `findTodayScreenings`: the screenings starting in [startOfDay, endOfDay)
      that have free seats, by start time. */
  function FindTodayScreenings(rows: seq<ScreeningRecord>, startOfDay: int, endOfDay: int): (r: seq<ScreeningRecord>)
    ensures forall s :: s in r <==> s in rows && startOfDay <= s.startTime < endOfDay && HasFreeSeats(s)
    ensures forall s ::
              multiset(r)[s] == if startOfDay <= s.startTime < endOfDay && HasFreeSeats(s) then multiset(rows)[s] else 0
    ensures SortedBy(r, StartsNoLater)
  {
    var matching := Filter(rows, (s: ScreeningRecord) => startOfDay <= s.startTime < endOfDay && HasFreeSeats(s));
    StartOrderIsTotal();
    SortBySorted(matching, StartsNoLater);
    SortBy(matching, StartsNoLater)
  }

  /** `findByMovieIdOrderByStartTime`: every screening of one movie, by start time. */
  function FindByMovieIdOrderByStartTime(rows: seq<ScreeningRecord>, movieId: int): (r: seq<ScreeningRecord>)
    ensures forall s :: s in r <==> s in rows && s.movieId == movieId
    ensures forall s :: multiset(r)[s] == if s.movieId == movieId then multiset(rows)[s] else 0
    ensures SortedBy(r, StartsNoLater)
  {
    var matching := Filter(rows, (s: ScreeningRecord) => s.movieId == movieId);
    StartOrderIsTotal();
    SortBySorted(matching, StartsNoLater);
    SortBy(matching, StartsNoLater)
  }
}
