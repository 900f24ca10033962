/** `MovieRepository` (src/main/java/com/cinema/movie/repository/MovieRepository.java):
    the derived queries and the JPQL queries over the `movies` table, joined
    with screenings and bookings where the query says so. */
module MovieRepo {
  import opened Base
  import opened Text
  import opened Sorting
  import opened ScreeningEntity
  import opened BookingEntity
  import ScreeningRepo

  /** A row of the `movies` table, reduced to the columns the queries read. */
  datatype Movie = Movie(id: int, title: string, genre: string, duration: int)

  /** `ORDER BY m.title`. */
  predicate TitleLe(a: Movie, b: Movie) {
    LexLe(a.title, b.title)
  }

  lemma TitleOrderIsTotal()
    ensures TotalPreorder(TitleLe)
  {
    forall a: Movie, b: Movie ensures TitleLe(a, b) || TitleLe(b, a) {
      LexLeTotal(a.title, b.title);
    }
    forall a: Movie, b: Movie, c: Movie | TitleLe(a, b) && TitleLe(b, c) ensures TitleLe(a, c) {
      LexLeTransitive(a.title, b.title, c.title);
    }
  }

  /** `findByGenreIgnoreCase`: genre equal up to case. */
  function FindByGenreIgnoreCase(movies: seq<Movie>, genre: string): (r: seq<Movie>)
    ensures forall m :: m in r <==> m in movies && Lower(m.genre) == Lower(genre)
    ensures forall m :: multiset(r)[m] <= multiset(movies)[m]
  {
    Filter(movies, (m: Movie) => Lower(m.genre) == Lower(genre))
  }

  /** `findByTitleContainingIgnoreCase`: the title contains the text up to
      case. The derived query escapes `%` and `_`, so this is a plain
      substring test. */
  function FindByTitleContainingIgnoreCase(movies: seq<Movie>, title: string): (r: seq<Movie>)
    ensures forall m :: m in r <==> m in movies && Contains(Lower(m.title), Lower(title))
    ensures forall m :: multiset(r)[m] <= multiset(movies)[m]
  {
    Filter(movies, (m: Movie) => Contains(Lower(m.title), Lower(title)))
  }

  /** `findByDurationBetween`: both bounds inclusive. */
  function FindByDurationBetween(movies: seq<Movie>, minDuration: int, maxDuration: int): (r: seq<Movie>)
    ensures forall m :: m in r <==> m in movies && minDuration <= m.duration <= maxDuration
    ensures forall m :: multiset(r)[m] <= multiset(movies)[m]
  {
    Filter(movies, (m: Movie) => minDuration <= m.duration <= maxDuration)
  }

  /** A screening of movie `m` that has not started and has a free seat. */
  predicate HasAvailableScreening(m: Movie, screenings: seq<ScreeningRecord>, now: int) {
    exists i :: 0 <= i < |screenings| && screenings[i].movieId == m.id && screenings[i].startTime > now
                && ScreeningRepo.HasFreeSeats(screenings[i])
  }

  /** `findMoviesWithAvailableScreenings`: the movies with a future
      screening that has free seats, each stored movie once however many
      such screenings it has (`DISTINCT`), by title. */
  function FindMoviesWithAvailableScreenings(movies: seq<Movie>, screenings: seq<ScreeningRecord>, now: int)
    : (r: seq<Movie>)
    ensures forall m :: m in r <==> m in movies && HasAvailableScreening(m, screenings, now)
    ensures forall m :: multiset(r)[m] == if HasAvailableScreening(m, screenings, now) then multiset(movies)[m] else 0
    ensures SortedBy(r, TitleLe)
  {
    var found := Filter(movies, (m: Movie) => HasAvailableScreening(m, screenings, now));
    TitleOrderIsTotal();
    SortBySorted(found, TitleLe);
    SortBy(found, TitleLe)
  }

  /** A CONFIRMED booking for a screening of movie `m` (the two inner joins). */
  predicate IsConfirmedBookingOf(m: Movie, screenings: map<int, ScreeningRecord>, b: BookingRecord) {
    b.status == Some(Confirmed) && b.screeningId in screenings && screenings[b.screeningId].movieId == m.id
  }

  /** `COUNT(b.id)` for one movie's group. */
  function ConfirmedBookingCount(m: Movie, screenings: map<int, ScreeningRecord>, bookings: seq<BookingRecord>): (n: nat)
    ensures n == 0 <==> forall i :: 0 <= i < |bookings| ==> !IsConfirmedBookingOf(m, screenings, bookings[i])
    ensures n <= |bookings|
  {
    if bookings == [] then 0
    else
      var rest := ConfirmedBookingCount(m, screenings, bookings[1..]);
      assert forall i :: 1 <= i < |bookings| ==> bookings[1..][i - 1] == bookings[i];
      (if IsConfirmedBookingOf(m, screenings, bookings[0]) then 1 else 0) + rest
  }

  /** `ORDER BY COUNT(b.id) DESC`. */
  function MoreBooked(screenings: map<int, ScreeningRecord>, bookings: seq<BookingRecord>): (Movie, Movie) -> bool {
    (a: Movie, b: Movie) => ConfirmedBookingCount(a, screenings, bookings) >= ConfirmedBookingCount(b, screenings, bookings)
  }

  lemma MoreBookedIsTotal(screenings: map<int, ScreeningRecord>, bookings: seq<BookingRecord>)
    ensures TotalPreorder(MoreBooked(screenings, bookings))
  {
    var le := MoreBooked(screenings, bookings);
    forall a: Movie, b: Movie ensures le(a, b) || le(b, a) {
    }
    forall a: Movie, b: Movie, c: Movie | le(a, b) && le(b, c) ensures le(a, c) {
    }
  }

  /** `findMostPopularMovies`: the movies with at least one CONFIRMED
      booking, most confirmed bookings first. */
  function FindMostPopularMovies(movies: seq<Movie>, screenings: map<int, ScreeningRecord>, bookings: seq<BookingRecord>)
    : (r: seq<Movie>)
    ensures forall m :: m in r <==> m in movies && ConfirmedBookingCount(m, screenings, bookings) > 0
    ensures forall m :: multiset(r)[m] <= multiset(movies)[m]
    ensures SortedBy(r, MoreBooked(screenings, bookings))
  {
    var popular := Filter(movies, (m: Movie) => ConfirmedBookingCount(m, screenings, bookings) > 0);
    MoreBookedIsTotal(screenings, bookings);
    SortBySorted(popular, MoreBooked(screenings, bookings));
    SortBy(popular, MoreBooked(screenings, bookings))
  }

  /** The genre condition of `searchMovies`, applied only when given. */
  predicate GenreMatches(m: Movie, genre: Option<string>) {
    genre.None? || Lower(m.genre) == Lower(genre.value)
  }

  /** The title condition of `searchMovies`: `LOWER(title) LIKE
      LOWER(CONCAT('%', :title, '%'))`, applied only when given. */
  predicate TitleMatches(m: Movie, title: Option<string>) {
    title.None? || Like(Lower(m.title), Lower("%" + title.value + "%"))
  }

  predicate DurationMatches(m: Movie, minDuration: Option<int>, maxDuration: Option<int>) {
    && (minDuration.None? || m.duration >= minDuration.value)
    && (maxDuration.None? || m.duration <= maxDuration.value)
  }

  predicate MatchesSearch(m: Movie, genre: Option<string>, title: Option<string>,
                          minDuration: Option<int>, maxDuration: Option<int>) {
    GenreMatches(m, genre) && TitleMatches(m, title) && DurationMatches(m, minDuration, maxDuration)
  }

  /** `searchMovies`: every given filter applies, each missing one is
      dropped, and the result is ordered by title. */
  function SearchMovies(movies: seq<Movie>, genre: Option<string>, title: Option<string>,
                        minDuration: Option<int>, maxDuration: Option<int>): (r: seq<Movie>)
    ensures forall m :: m in r <==> m in movies && MatchesSearch(m, genre, title, minDuration, maxDuration)
    ensures forall m :: multiset(r)[m] == if MatchesSearch(m, genre, title, minDuration, maxDuration) then multiset(movies)[m] else 0
    ensures SortedBy(r, TitleLe)
  {
    var found := Filter(movies, (m: Movie) => MatchesSearch(m, genre, title, minDuration, maxDuration));
    TitleOrderIsTotal();
    SortBySorted(found, TitleLe);
    SortBy(found, TitleLe)
  }

  /** With every parameter null the search returns every movie. */
  lemma SearchWithoutFiltersReturnsAll(movies: seq<Movie>)
    ensures multiset(SearchMovies(movies, None, None, None, None)) == multiset(movies)
  {
    var r := SearchMovies(movies, None, None, None, None);
    assert forall m :: multiset(r)[m] == multiset(movies)[m];
  }

  /** For a title without `%` or `_`, the search's title condition is
      case-insensitive substring search, as in the derived finder. */
  lemma {:induction false} TitleMatchIsSubstring(m: Movie, title: string)
    requires NoWildcards(title)
    ensures TitleMatches(m, Some(title)) <==> Contains(Lower(m.title), Lower(title))
  {
    LowerConcat("%", title);
    LowerConcat("%" + title, "%");
    assert Lower("%") == "%";
    assert "%" + title + "%" == ("%" + title) + "%";
    LowerNoWildcards(title);
    LikeInfixIsContains(Lower(m.title), Lower(title));
  }

  /** A search by a wildcard-free title alone finds the same movies as
      `findByTitleContainingIgnoreCase`. */
  lemma SearchByTitleAgreesWithFinder(movies: seq<Movie>, title: string)
    requires NoWildcards(title)
    ensures forall m :: m in SearchMovies(movies, None, Some(title), None, None) <==> m in FindByTitleContainingIgnoreCase(movies, title)
  {
    forall m | m in movies {
      TitleMatchIsSubstring(m, title);
    }
  }

  /** In a searched title `_` is a wildcard: a search for "_" finds a movie
      whose title is "ab", which the derived finder does not. */
  lemma UnderscoreInSearchIsWildcard()
    ensures var m := Movie(1, "ab", "", 0);
            MatchesSearch(m, None, Some("_"), None, None) && m !in FindByTitleContainingIgnoreCase([m], "_")
  {
    var m := Movie(1, "ab", "", 0);
    assert Lower("ab") == "ab" by {
      assert LowerChar('a') == 'a' && LowerChar('b') == 'b';
    }
    assert Lower("%_%") == "%_%" by {
      assert LowerChar('%') == '%' && LowerChar('_') == '_';
    }
    assert "%" + "_" + "%" == "%_%";
    UnderscoreMatchesAnyCharacter();
  }
}
