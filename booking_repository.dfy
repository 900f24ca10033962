/** `BookingRepository` (src/main/java/com/cinema/movie/repository/BookingRepository.java):
    the `bookings` table, the JPA `save`/`findById` it inherits, and its
    derived and JPQL queries. Bookings are never deleted and their ids are
    generated by an IDENTITY column, so the table is a sequence whose row
    `i` carries id `i + 1`. */
module BookingRepo {
  import opened Base
  import opened BookingEntity
  import opened BookingDomain
  import opened Sorting
  import ScreeningEntity

  /** Row `i` of a saved table holds id `i + 1`. */
  ghost predicate IdsAreIndices(rows: seq<BookingRecord>) {
    forall i :: 0 <= i < |rows| ==> rows[i].id == Some(i + 1)
  }

  /** `findById`: the row carrying `id`, if any. */
  function FindById(rows: seq<BookingRecord>, id: int): (r: Option<BookingRecord>)
    ensures r.Some? <==> exists i :: 0 <= i < |rows| && rows[i].id == Some(id)
    ensures r.Some? ==> r.value in rows && r.value.id == Some(id)
  {
    if rows == [] then None
    else if rows[|rows| - 1].id == Some(id) then Some(rows[|rows| - 1])
    else
      var r := FindById(rows[..|rows| - 1], id);
      assert forall i :: 0 <= i < |rows| - 1 ==> rows[..|rows| - 1][i] == rows[i];
      r
  }

  /** In a saved table, `findById` is indexing by `id - 1`. */
  lemma {:induction false} FindByIdIsIndexing(rows: seq<BookingRecord>, id: int)
    requires IdsAreIndices(rows)
    ensures FindById(rows, id) == if 1 <= id <= |rows| then Some(rows[id - 1]) else None
    decreases |rows|
  {
    if rows != [] && rows[|rows| - 1].id != Some(id) {
      var init := rows[..|rows| - 1];
      assert IdsAreIndices(init);
      FindByIdIsIndexing(init, id);
    }
  }

  /** The sum of `numberOfSeats` over the rows that satisfy `p`. */
  function SeatsWhere(rows: seq<BookingRecord>, p: BookingRecord -> bool): int
    decreases |rows|
  {
    if rows == [] then 0
    else
      var last := rows[|rows| - 1];
      SeatsWhere(rows[..|rows| - 1], p) + (if p(last) then last.numberOfSeats else 0)
  }

  /** What one row adds to `SeatsWhere`. */
  function Share(b: BookingRecord, p: BookingRecord -> bool): int {
    if p(b) then b.numberOfSeats else 0
  }

  /** Appending a row adds its share. */
  lemma SeatsWhereAppend(rows: seq<BookingRecord>, b: BookingRecord, p: BookingRecord -> bool)
    ensures SeatsWhere(rows + [b], p) == SeatsWhere(rows, p) + Share(b, p)
  {
    assert (rows + [b])[..|rows|] == rows;
  }

  /** Overwriting a row swaps its share for the new row's. */
  lemma {:induction false} SeatsWhereUpdate(rows: seq<BookingRecord>, i: int, b: BookingRecord, p: BookingRecord -> bool)
    requires 0 <= i < |rows|
    ensures SeatsWhere(rows[i := b], p) == SeatsWhere(rows, p) - Share(rows[i], p) + Share(b, p)
    decreases |rows|
  {
    var n := |rows| - 1;
    var updated := rows[i := b];
    assert updated[..n] == if i == n then rows[..n] else rows[..n][i := b];
    if i < n {
      SeatsWhereUpdate(rows[..n], i, b, p);
    }
  }

  /** With no negative seat counts the sum is never negative. */
  lemma {:induction false} SeatsWhereBounds(rows: seq<BookingRecord>, p: BookingRecord -> bool)
    requires forall i :: 0 <= i < |rows| ==> rows[i].numberOfSeats >= 0
    ensures SeatsWhere(rows, p) >= 0
    decreases |rows|
  {
    if rows != [] {
      SeatsWhereBounds(rows[..|rows| - 1], p);
    }
  }

  /** A sum over a weaker condition is at least the sum over a stronger one. */
  lemma {:induction false} SeatsWhereMonotone(rows: seq<BookingRecord>, p: BookingRecord -> bool, q: BookingRecord -> bool)
    requires forall i :: 0 <= i < |rows| ==> rows[i].numberOfSeats >= 0
    requires forall i :: 0 <= i < |rows| ==> p(rows[i]) ==> q(rows[i])
    ensures SeatsWhere(rows, p) <= SeatsWhere(rows, q)
    decreases |rows|
  {
    if rows != [] {
      SeatsWhereMonotone(rows[..|rows| - 1], p, q);
    }
  }

  /** A booking of screening `screeningId` that still holds its seats. */
  predicate HoldsSeatsOf(screeningId: int, b: BookingRecord) {
    b.screeningId == screeningId && IsCancellable(b)
  }

  predicate IsConfirmedFor(screeningId: int, b: BookingRecord) {
    b.screeningId == screeningId && b.status == Some(Confirmed)
  }

  function HoldersOf(screeningId: int): BookingRecord -> bool {
    b => HoldsSeatsOf(screeningId, b)
  }

  function ConfirmedOf(screeningId: int): BookingRecord -> bool {
    b => IsConfirmedFor(screeningId, b)
  }

  /** The seats of screening `screeningId` held by PENDING and CONFIRMED bookings. */
  function SeatsHeld(rows: seq<BookingRecord>, screeningId: int): int {
    SeatsWhere(rows, HoldersOf(screeningId))
  }

  /** `countConfirmedSeatsForScreening`: `COALESCE(SUM(numberOfSeats), 0)`
      over the CONFIRMED bookings of the screening; 0 when there are none,
      and never more than the seats the screening's live bookings hold. */
  function CountConfirmedSeatsForScreening(rows: seq<BookingRecord>, screeningId: int): (n: int)
    ensures (forall i :: 0 <= i < |rows| ==> !IsConfirmedFor(screeningId, rows[i])) ==> n == 0
    ensures (forall i :: 0 <= i < |rows| ==> rows[i].numberOfSeats >= 0) ==> 0 <= n <= SeatsHeld(rows, screeningId)
  {
    ConfirmedWithinHeld(rows, screeningId);
    SeatsWhereNone(rows, ConfirmedOf(screeningId));
    SeatsWhere(rows, ConfirmedOf(screeningId))
  }

  lemma ConfirmedWithinHeld(rows: seq<BookingRecord>, screeningId: int)
    ensures (forall i :: 0 <= i < |rows| ==> rows[i].numberOfSeats >= 0) ==>
              0 <= SeatsWhere(rows, ConfirmedOf(screeningId)) <= SeatsHeld(rows, screeningId)
  {
    if forall i :: 0 <= i < |rows| ==> rows[i].numberOfSeats >= 0 {
      SeatsWhereBounds(rows, ConfirmedOf(screeningId));
      SeatsWhereMonotone(rows, ConfirmedOf(screeningId), HoldersOf(screeningId));
    }
  }

  /** No row satisfies `p`: the sum is zero whatever the seat counts. */
  lemma {:induction false} SeatsWhereNone(rows: seq<BookingRecord>, p: BookingRecord -> bool)
    ensures (forall i :: 0 <= i < |rows| ==> !p(rows[i])) ==> SeatsWhere(rows, p) == 0
    decreases |rows|
  {
    if rows != [] {
      SeatsWhereNone(rows[..|rows| - 1], p);
    }
  }

  /** `findExpiredPendingBookings`: the PENDING bookings created strictly
      before the cutoff; a null creation time never compares. */
  function FindExpiredPendingBookings(rows: seq<BookingRecord>, cutoffTime: int): (r: seq<BookingRecord>)
    ensures forall b :: b in r <==> b in rows && b.status == Some(Pending) && b.createdAt.Some? && b.createdAt.value < cutoffTime
    ensures forall b :: multiset(r)[b] <= multiset(rows)[b]
  {
    Filter(rows, (b: BookingRecord) => b.status == Some(Pending) && b.createdAt.Some? && b.createdAt.value < cutoffTime)
  }

  /** With the cutoff 15 minutes before now, the query returns exactly the
      stored bookings that the domain service calls expired. */
  lemma ExpiredQueryMatchesIsExpired(rows: seq<BookingRecord>, now: int, b: BookingRecord)
    requires b.status == Some(Pending) ==> b.createdAt.Some?
    ensures b in FindExpiredPendingBookings(rows, now - PendingExpiryMinutes) <==> b in rows && IsExpired(b, now)
  {
  }

  /** `ORDER BY createdAt DESC`; a null creation time sorts last. */
  predicate NewerFirst(a: BookingRecord, b: BookingRecord) {
    b.createdAt.None? || (a.createdAt.Some? && a.createdAt.value >= b.createdAt.value)
  }

  lemma NewestFirstIsTotal()
    ensures TotalPreorder(NewerFirst)
  {
  }

  /** `findByUserEmailOrderByCreatedAtDesc`: every booking of that user,
      each as often as it is stored, newest first. */
  function FindByUserEmailOrderByCreatedAtDesc(rows: seq<BookingRecord>, userEmail: string): (r: seq<BookingRecord>)
    ensures forall b :: b in r <==> b in rows && b.userEmail == userEmail
    ensures forall b :: multiset(r)[b] == if b.userEmail == userEmail then multiset(rows)[b] else 0
    ensures SortedBy(r, NewerFirst)
  {
    var mine := Filter(rows, (b: BookingRecord) => b.userEmail == userEmail);
    NewestFirstIsTotal();
    SortBySorted(mine, NewerFirst);
    SortBy(mine, NewerFirst)
  }

  /** `findByScreeningIdAndStatus`: the bookings matching both; a null
      status parameter becomes `IS NULL`, which `==` on the optional status
      reproduces. */
  function FindByScreeningIdAndStatus(rows: seq<BookingRecord>, screeningId: int, status: Option<BookingStatus>)
    : (r: seq<BookingRecord>)
    ensures forall b :: b in r <==> b in rows && b.screeningId == screeningId && b.status == status
    ensures forall b :: multiset(r)[b] == if b.screeningId == screeningId && b.status == status then multiset(rows)[b] else 0
  {
    Filter(rows, (b: BookingRecord) => b.screeningId == screeningId && b.status == status)
  }

  /** `findByUserEmailAndScreening_MovieId`: that user's bookings for any
      screening of the movie; the inner join drops bookings whose screening
      is not in the table. */
  function FindByUserEmailAndMovieId(rows: seq<BookingRecord>, screenings: map<int, ScreeningEntity.ScreeningRecord>,
                                     userEmail: string, movieId: int): (r: seq<BookingRecord>)
    ensures forall b :: b in r <==>
              b in rows && b.userEmail == userEmail && b.screeningId in screenings && screenings[b.screeningId].movieId == movieId
    ensures forall b :: multiset(r)[b] <= multiset(rows)[b]
  {
    Filter(rows, (b: BookingRecord) =>
             b.userEmail == userEmail && b.screeningId in screenings && screenings[b.screeningId].movieId == movieId)
  }

  /** The `bookings` table. */
  class BookingRepository {
    var rows: seq<BookingRecord>

    ghost predicate Valid()
      reads this
    {
      IdsAreIndices(rows)
    }

    constructor (initial: seq<BookingRecord>)
      ensures rows == initial
    {
      rows := initial;
    }

    /** `save`: a booking with a null id is new, so JPA runs `@PrePersist`
        and inserts it under the next identity value; a booking with an id is
        merged over its row. */
    method Save(b: Booking, now: int) returns (saved: BookingRecord)
      requires b.id.None? || 1 <= b.id.value <= |rows|
      modifies this, b
      ensures old(b.id).None? ==>
                && saved == OnCreateStep(old(b.Record()), now).(id := Some(|old(rows)| + 1))
                && rows == old(rows) + [saved]
                && b.Record() == saved
      ensures old(b.id).Some? ==>
                && saved == old(b.Record())
                && rows == old(rows)[old(b.id.value) - 1 := saved]
                && unchanged(b)
      ensures IdsAreIndices(old(rows)) ==> IdsAreIndices(rows)
    {
      if b.id.None? {
        b.OnCreate(now);
        b.id := Some(|rows| + 1);
        saved := b.Record();
        rows := rows + [saved];
      } else {
        saved := b.Record();
        rows := rows[b.id.value - 1 := saved];
      }
    }
  }
}
