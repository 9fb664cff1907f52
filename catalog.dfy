/**
 * The two tables of the PVR booking database, Movies and Shows, as values,
 * together with the two catalogue operations run at start-up: the cleanup
 * that drops duplicate movie rows and the seeding of the built-in catalogue.
 */
module Catalog {

  import opened Wrappers

  type MovieId = nat
  type ShowId = nat

  /** One row of Shows: the movie it screens, its timing, its capacity and its free seats. */
  datatype Show = Show(movieId: MovieId, timing: string, seats: int, available: int)

  /**
   * Both tables and the next id each AUTOINCREMENT column will hand out.
   * Movies maps id to title; Shows maps id to the rest of the row.
   */
  datatype Tables = Tables(
    movies: map<MovieId, string>,
    shows: map<ShowId, Show>,
    nextMovieId: MovieId,
    nextShowId: ShowId)

  /** Every id in use was drawn from its counter, so the counters always hand out fresh ids. */
  predicate ValidTables(t: Tables) {
    && (forall id :: id in t.movies ==> id < t.nextMovieId)
    && (forall id :: id in t.shows ==> id < t.nextShowId)
  }

  /** No two movie rows share a title. */
  predicate UniqueTitles(movies: map<MovieId, string>) {
    forall a, b :: a in movies && b in movies && movies[a] == movies[b] ==> a == b
  }

  predicate WithinCapacity(s: Show) {
    0 <= s.available <= s.seats
  }

  predicate AllWithinCapacity(shows: map<ShowId, Show>) {
    forall id :: id in shows ==> WithinCapacity(shows[id])
  }

  // ---------------------------------------------------------------------
  // Duplicate-title cleanup: delete every movie row whose id is not the
  // smallest id among the rows with the same title.
  // ---------------------------------------------------------------------

  /** `id` is the smallest id among the movie rows carrying its title. */
  predicate IsFirstWithTitle(movies: map<MovieId, string>, id: MovieId)
    requires id in movies
  {
    forall j :: j in movies && movies[j] == movies[id] ==> id <= j
  }

  /** The Movies table after the cleanup query. */
  function RemoveDuplicates(movies: map<MovieId, string>): map<MovieId, string> {
    map id | id in movies && IsFirstWithTitle(movies, id) :: movies[id]
  }

  /** The smallest element of a non-empty set of ids. */
  lemma {:induction false} Smallest(ids: set<MovieId>) returns (m: MovieId)
    requires ids != {}
    ensures m in ids && forall j :: j in ids ==> m <= j
    decreases ids
  {
    var x :| x in ids;
    var rest := ids - {x};
    if rest == {} {
      m := x;
      forall j | j in ids ensures m <= j {
        assert j !in rest;
      }
    } else {
      var least := Smallest(rest);
      m := if x < least then x else least;
      forall j | j in ids ensures m <= j {
        assert j == x || j in rest;
      }
    }
  }

  /** Every title present in the table has a row that is the first with that title. */
  lemma FirstWithTitle(movies: map<MovieId, string>, title: string) returns (id: MovieId)
    requires title in movies.Values
    ensures id in movies && movies[id] == title && IsFirstWithTitle(movies, id)
  {
    var ids := set j | j in movies && movies[j] == title;
    var some :| some in movies && movies[some] == title;
    assert some in ids;
    id := Smallest(ids);
    forall j | j in movies && movies[j] == movies[id] ensures id <= j {
      assert j in ids;
    }
  }

  /**
   * The cleanup keeps a subset of the rows unchanged, leaves each title exactly
   * once, loses no title, and the surviving row of a title is its smallest id.
   */
  lemma RemoveDuplicatesSpec(movies: map<MovieId, string>)
    ensures var r := RemoveDuplicates(movies);
      && (forall id :: id in r ==> id in movies && r[id] == movies[id])
      && UniqueTitles(r)
      && r.Values == movies.Values
      && (forall id, j :: id in r && j in movies && movies[j] == r[id] ==> id <= j)
  {
    var r := RemoveDuplicates(movies);
    forall title | title in movies.Values ensures title in r.Values {
      var id := FirstWithTitle(movies, title);
      assert r[id] == title;
    }
  }

  /** Titles that are already unique are untouched by the cleanup. */
  lemma RemoveDuplicatesKeepsUnique(movies: map<MovieId, string>)
    requires UniqueTitles(movies)
    ensures RemoveDuplicates(movies) == movies
  {
  }

  // ---------------------------------------------------------------------
  // Seeding the built-in catalogue.
  // ---------------------------------------------------------------------

  /** A show of the built-in catalogue: its timing and its number of seats. */
  datatype SeedShow = SeedShow(timing: string, seats: int)

  /** A movie of the built-in catalogue with its shows. */
  datatype SeedMovie = SeedMovie(title: string, shows: seq<SeedShow>)

  /** The built-in catalogue: four movies with three 50-seat shows each. */
  const InbuiltMovies: seq<SeedMovie> := [
    SeedMovie("Avengers", [SeedShow("10:00 AM", 50), SeedShow("1:00 PM", 50), SeedShow("4:00 PM", 50)]),
    SeedMovie("Minions", [SeedShow("11:00 AM", 50), SeedShow("2:00 PM", 50), SeedShow("5:00 PM", 50)]),
    SeedMovie("Pulp Fiction", [SeedShow("12:00 PM", 50), SeedShow("3:00 PM", 50), SeedShow("6:00 PM", 50)]),
    SeedMovie("Rockstar", [SeedShow("9:00 AM", 50), SeedShow("12:00 PM", 50), SeedShow("3:00 PM", 50)])
  ]

  /** Whether some movie row carries `title` (the question `movie_exists` asks). */
  predicate HasTitle(movies: map<MovieId, string>, title: string) {
    title in movies.Values
  }

  /** INSERT INTO Movies: the new row takes the next id. */
  function AddMovie(t: Tables, title: string): Tables {
    t.(movies := t.movies[t.nextMovieId := title], nextMovieId := t.nextMovieId + 1)
  }

  /** INSERT INTO Shows: the new row takes the next id and starts with every seat free. */
  function AddShow(t: Tables, movieId: MovieId, s: SeedShow): Tables {
    t.(shows := t.shows[t.nextShowId := Show(movieId, s.timing, s.seats, s.seats)],
       nextShowId := t.nextShowId + 1)
  }

  /** The inner seeding loop: insert the shows of one movie in order. */
  function AddShows(t: Tables, movieId: MovieId, ss: seq<SeedShow>): Tables
    decreases |ss|
  {
    if ss == [] then t
    else AddShow(AddShows(t, movieId, ss[..|ss| - 1]), movieId, ss[|ss| - 1])
  }

  /** One pass of the outer seeding loop: insert the movie and its shows unless its title exists. */
  function SeedMovieInto(t: Tables, m: SeedMovie): Tables {
    if HasTitle(t.movies, m.title) then t
    else AddShows(AddMovie(t, m.title), t.nextMovieId, m.shows)
  }

  /** The whole seeding loop over a catalogue, in order. */
  function Seeded(t: Tables, catalog: seq<SeedMovie>): Tables
    decreases |catalog|
  {
    if catalog == [] then t
    else SeedMovieInto(Seeded(t, catalog[..|catalog| - 1]), catalog[|catalog| - 1])
  }

  /**
   * Inserting shows leaves Movies and every existing show alone, takes
   * consecutive fresh ids, and every new show has all its seats available.
   */
  lemma {:induction false} AddShowsEffect(t: Tables, movieId: MovieId, ss: seq<SeedShow>)
    requires ValidTables(t)
    ensures var r := AddShows(t, movieId, ss);
      && ValidTables(r)
      && r.movies == t.movies
      && r.nextMovieId == t.nextMovieId
      && r.nextShowId == t.nextShowId + |ss|
      && (forall id :: id in r.shows <==> id in t.shows || t.nextShowId <= id < t.nextShowId + |ss|)
      && (forall id :: id in t.shows ==> r.shows[id] == t.shows[id])
      && (forall k :: 0 <= k < |ss| ==>
            r.shows[t.nextShowId + k] == Show(movieId, ss[k].timing, ss[k].seats, ss[k].seats))
    decreases |ss|
  {
    if ss != [] {
      var init := ss[..|ss| - 1];
      AddShowsEffect(t, movieId, init);
      assert forall k :: 0 <= k < |init| ==> init[k] == ss[k];
    }
  }

  /**
   * A movie is inserted, with its shows, only when its title is absent; then the
   * movie takes the next id and each of its shows starts with available == seats.
   */
  lemma SeedMovieIntoEffect(t: Tables, m: SeedMovie)
    requires ValidTables(t)
    ensures var r := SeedMovieInto(t, m);
      && ValidTables(r)
      && (HasTitle(t.movies, m.title) ==> r == t)
      && (!HasTitle(t.movies, m.title) ==>
            && t.nextMovieId !in t.movies
            && r.movies == t.movies[t.nextMovieId := m.title]
            && r.nextMovieId == t.nextMovieId + 1
            && r.nextShowId == t.nextShowId + |m.shows|
            && (forall id :: id in r.shows <==> id in t.shows || t.nextShowId <= id < r.nextShowId)
            && (forall id :: id in t.shows ==> r.shows[id] == t.shows[id])
            && (forall k :: 0 <= k < |m.shows| ==>
                  r.shows[t.nextShowId + k]
                  == Show(t.nextMovieId, m.shows[k].timing, m.shows[k].seats, m.shows[k].seats)))
  {
    if !HasTitle(t.movies, m.title) {
      AddShowsEffect(AddMovie(t, m.title), t.nextMovieId, m.shows);
    }
  }

  /** Seeding only adds rows: every existing movie and show (and its free seats) survives unchanged. */
  lemma {:induction false} SeededOnlyAdds(t: Tables, catalog: seq<SeedMovie>)
    requires ValidTables(t)
    ensures var r := Seeded(t, catalog);
      && ValidTables(r)
      && (forall id :: id in t.movies ==> id in r.movies && r.movies[id] == t.movies[id])
      && (forall id :: id in t.shows ==> id in r.shows && r.shows[id] == t.shows[id])
    decreases |catalog|
  {
    if catalog != [] {
      var init := catalog[..|catalog| - 1];
      SeededOnlyAdds(t, init);
      SeedMovieIntoEffect(Seeded(t, init), catalog[|catalog| - 1]);
    }
  }

  /** After seeding, every title of the catalogue is present. */
  lemma {:induction false} SeededCoversCatalog(t: Tables, catalog: seq<SeedMovie>)
    requires ValidTables(t)
    ensures forall i :: 0 <= i < |catalog| ==> HasTitle(Seeded(t, catalog).movies, catalog[i].title)
    decreases |catalog|
  {
    if catalog != [] {
      var init := catalog[..|catalog| - 1];
      var last := catalog[|catalog| - 1];
      var s := Seeded(t, init);
      SeededCoversCatalog(t, init);
      SeededOnlyAdds(t, init);
      SeedMovieIntoEffect(s, last);
      var r := Seeded(t, catalog);
      forall i | 0 <= i < |catalog| ensures HasTitle(r.movies, catalog[i].title) {
        if i < |init| {
          assert catalog[i] == init[i];
          var id :| id in s.movies && s.movies[id] == catalog[i].title;
          assert r.movies[id] == catalog[i].title;
        } else if !HasTitle(s.movies, last.title) {
          assert r.movies[s.nextMovieId] == last.title;
        }
      }
    }
  }

  /** Seeding a catalogue whose titles are all present changes nothing. */
  lemma {:induction false} SeededNoOp(t: Tables, catalog: seq<SeedMovie>)
    requires forall i :: 0 <= i < |catalog| ==> HasTitle(t.movies, catalog[i].title)
    ensures Seeded(t, catalog) == t
    decreases |catalog|
  {
    if catalog != [] {
      var init := catalog[..|catalog| - 1];
      assert forall i :: 0 <= i < |init| ==> init[i] == catalog[i];
      SeededNoOp(t, init);
    }
  }

  /** Running the seeding a second time changes nothing. */
  lemma SeededIdempotent(t: Tables, catalog: seq<SeedMovie>)
    requires ValidTables(t)
    ensures Seeded(Seeded(t, catalog), catalog) == Seeded(t, catalog)
  {
    SeededCoversCatalog(t, catalog);
    SeededNoOp(Seeded(t, catalog), catalog);
  }

  /** Seeding never creates a second row for a title. */
  lemma {:induction false} SeededKeepsTitlesUnique(t: Tables, catalog: seq<SeedMovie>)
    requires ValidTables(t) && UniqueTitles(t.movies)
    ensures UniqueTitles(Seeded(t, catalog).movies)
    decreases |catalog|
  {
    if catalog != [] {
      var init := catalog[..|catalog| - 1];
      var last := catalog[|catalog| - 1];
      var s := Seeded(t, init);
      SeededKeepsTitlesUnique(t, init);
      SeededOnlyAdds(t, init);
      SeedMovieIntoEffect(s, last);
    }
  }

  /** All seats of every show of the catalogue are non-negative. */
  predicate NonNegativeSeats(catalog: seq<SeedMovie>) {
    forall i, k :: 0 <= i < |catalog| && 0 <= k < |catalog[i].shows| ==> catalog[i].shows[k].seats >= 0
  }

  /** Seeding a catalogue with non-negative capacities keeps every show within capacity. */
  lemma {:induction false} SeededWithinCapacity(t: Tables, catalog: seq<SeedMovie>)
    requires ValidTables(t) && AllWithinCapacity(t.shows) && NonNegativeSeats(catalog)
    ensures AllWithinCapacity(Seeded(t, catalog).shows)
    decreases |catalog|
  {
    if catalog != [] {
      var init := catalog[..|catalog| - 1];
      var last := catalog[|catalog| - 1];
      assert forall i :: 0 <= i < |init| ==> init[i] == catalog[i];
      SeededWithinCapacity(t, init);
      var s := Seeded(t, init);
      SeededOnlyAdds(t, init);
      SeedMovieIntoEffect(s, last);
      var r := Seeded(t, catalog);
      if !HasTitle(s.movies, last.title) {
        forall id | id in r.shows ensures WithinCapacity(r.shows[id]) {
          if id !in s.shows {
            var k := id - s.nextShowId;
            assert r.shows[s.nextShowId + k].seats == last.shows[k].seats;
          }
        }
      }
    }
  }

  // ---------------------------------------------------------------------
  // Start-up: cleanup, then seeding of the built-in catalogue.
  // ---------------------------------------------------------------------

  /** The tables after one start of the program: duplicates removed, then the built-in catalogue seeded. */
  function AfterStartup(t: Tables): Tables {
    Seeded(t.(movies := RemoveDuplicates(t.movies)), InbuiltMovies)
  }

  /**
   * Starting the program again on the tables a previous start left changes
   * nothing, leaves one row per title and every built-in title present.
   */
  lemma StartupIdempotent(t: Tables)
    requires ValidTables(t)
    ensures UniqueTitles(AfterStartup(t).movies)
    ensures forall i :: 0 <= i < |InbuiltMovies| ==> HasTitle(AfterStartup(t).movies, InbuiltMovies[i].title)
    ensures AfterStartup(AfterStartup(t)) == AfterStartup(t)
  {
    var u := t.(movies := RemoveDuplicates(t.movies));
    RemoveDuplicatesSpec(t.movies);
    assert ValidTables(u);
    var s := Seeded(u, InbuiltMovies);
    SeededKeepsTitlesUnique(u, InbuiltMovies);
    SeededCoversCatalog(u, InbuiltMovies);
    SeededOnlyAdds(u, InbuiltMovies);
    RemoveDuplicatesKeepsUnique(s.movies);
    assert s.(movies := RemoveDuplicates(s.movies)) == s;
    SeededIdempotent(u, InbuiltMovies);
  }

  /** Start-up keeps every show within capacity, since every built-in show has 50 seats. */
  lemma StartupWithinCapacity(t: Tables)
    requires ValidTables(t) && AllWithinCapacity(t.shows)
    ensures AllWithinCapacity(AfterStartup(t).shows)
  {
    var u := t.(movies := RemoveDuplicates(t.movies));
    RemoveDuplicatesSpec(t.movies);
    assert NonNegativeSeats(InbuiltMovies);
    SeededWithinCapacity(u, InbuiltMovies);
  }

}
