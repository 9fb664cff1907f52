/**
 * The booking database as the program holds it: the Movies and Shows tables
 * and their AUTOINCREMENT counters, updated in place by the start-up cleanup,
 * the seeding loop, and the booking and cancelling of seats.
 */
module PvrBooking {

  import opened Wrappers
  import opened Catalog
  import opened Inventory

  class Database {
    var movies: map<MovieId, string>
    var shows: map<ShowId, Show>
    var nextMovieId: MovieId
    var nextShowId: ShowId

    /** The current contents of both tables and counters, as a value. */
    function Snapshot(): Tables
      reads this
    {
      Tables(movies, shows, nextMovieId, nextShowId)
    }

    ghost predicate Valid()
      reads this
    {
      ValidTables(Snapshot())
    }

    /** Fresh, empty tables; AUTOINCREMENT hands out 1 first. */
    constructor ()
      ensures Valid()
      ensures Snapshot() == Tables(map[], map[], 1, 1)
    {
      movies := map[];
      shows := map[];
      nextMovieId := 1;
      nextShowId := 1;
    }

    /** Deletes every movie row that is not the smallest id of its title; shows are kept. */
    method RemoveDuplicateMovies()
      requires Valid()
      modifies this
      ensures Valid()
      ensures Snapshot() == old(Snapshot()).(movies := RemoveDuplicates(old(movies)))
    {
      movies := RemoveDuplicates(movies);
    }

    /** Looks up a movie row by title; with unique titles the row found is the only one. */
    method MovieExists(title: string) returns (found: Option<MovieId>)
      ensures found.Some? <==> HasTitle(movies, title)
      ensures found.Some? ==> found.value in movies && movies[found.value] == title
      ensures found.Some? && UniqueTitles(movies) ==>
        forall j :: j in movies && movies[j] == title ==> j == found.value
    {
      if title in movies.Values {
        var id :| id in movies && movies[id] == title;
        found := Some(id);
      } else {
        found := None;
      }
    }

    /** Inserts a movie row under the next id and returns that id. */
    method InsertMovie(title: string) returns (id: MovieId)
      requires Valid()
      requires !HasTitle(movies, title)  // the UNIQUE constraint on title would reject it
      modifies this
      ensures Valid()
      ensures id == old(nextMovieId) && id !in old(movies)
      ensures Snapshot() == AddMovie(old(Snapshot()), title)
    {
      id := nextMovieId;
      movies := movies[id := title];
      nextMovieId := nextMovieId + 1;
    }

    /** Inserts a show row under the next id with every seat available, and returns that id. */
    method InsertShow(movieId: MovieId, timing: string, seats: int) returns (id: ShowId)
      requires Valid()
      modifies this
      ensures Valid()
      ensures id == old(nextShowId) && id !in old(shows)
      ensures Snapshot() == AddShow(old(Snapshot()), movieId, SeedShow(timing, seats))
    {
      id := nextShowId;
      shows := shows[id := Show(movieId, timing, seats, seats)];
      nextShowId := nextShowId + 1;
    }

    /** The seeding loop: each movie whose title is absent is inserted with its shows. */
    method SeedCatalog(catalog: seq<SeedMovie>)
      requires Valid()
      modifies this
      ensures Valid()
      ensures Snapshot() == Seeded(old(Snapshot()), catalog)
    {
      for i := 0 to |catalog|
        invariant Valid()
        invariant Snapshot() == Seeded(old(Snapshot()), catalog[..i])
      {
        var movie := catalog[i];
        assert catalog[..i + 1][..i] == catalog[..i];
        var existing := MovieExists(movie.title);
        if existing.None? {
          ghost var before := Snapshot();
          var movieId := InsertMovie(movie.title);
          for k := 0 to |movie.shows|
            invariant Valid()
            invariant Snapshot() == AddShows(AddMovie(before, movie.title), movieId, movie.shows[..k])
          {
            assert movie.shows[..k + 1][..k] == movie.shows[..k];
            var showId := InsertShow(movieId, movie.shows[k].timing, movie.shows[k].seats);
          }
          assert movie.shows[..|movie.shows|] == movie.shows;
        }
      }
      assert catalog[..|catalog|] == catalog;
    }

    /** What the program does to the tables before showing its menu. */
    method Startup()
      requires Valid()
      modifies this
      ensures Valid()
      ensures Snapshot() == AfterStartup(old(Snapshot()))
    {
      RemoveDuplicateMovies();
      SeedCatalog(InbuiltMovies);
    }

    /**
     * Books `numSeats` seats of an existing show: accepted exactly when that many
     * are available, and then only the show's free seats change.
     */
    method BookSeats(showId: ShowId, numSeats: int) returns (booked: bool)
      requires Valid() && showId in shows
      modifies this
      ensures Valid()
      ensures booked <==> old(shows[showId].available) >= numSeats
      ensures Snapshot() == Book(old(Snapshot()), showId, numSeats)
    {
      var available := shows[showId].available;
      booked := available >= numSeats;
      if booked {
        shows := shows[showId := shows[showId].(available := available - numSeats)];
      }
    }

    /**
     * Cancels `numSeats` seats of an existing show: accepted exactly when that many
     * are booked, and then only the show's free seats change.
     */
    method CancelSeats(showId: ShowId, numSeats: int) returns (cancelled: bool)
      requires Valid() && showId in shows
      modifies this
      ensures Valid()
      ensures cancelled <==> old(shows[showId].seats - shows[showId].available) >= numSeats
      ensures Snapshot() == Cancel(old(Snapshot()), showId, numSeats)
    {
      var available := shows[showId].available;
      var totalSeats := shows[showId].seats;
      cancelled := totalSeats - available >= numSeats;
      if cancelled {
        shows := shows[showId := shows[showId].(available := available + numSeats)];
      }
    }
  }

  /**
   * A booking followed by a cancellation of the same count, on the object:
   * when the booking goes through, so does the cancellation, and both tables
   * end as they started; when it is refused, only the cancellation acts.
   */
  method BookThenCancelSeats(db: Database, showId: ShowId, numSeats: int) returns (booked: bool, cancelled: bool)
    requires db.Valid() && showId in db.shows && db.shows[showId].available <= db.shows[showId].seats
    modifies db
    ensures db.Valid()
    ensures booked <==> old(db.shows[showId].available) >= numSeats
    ensures booked ==> cancelled && db.Snapshot() == old(db.Snapshot())
    ensures !booked ==> db.Snapshot() == Cancel(old(db.Snapshot()), showId, numSeats)
  {
    ghost var before := db.Snapshot();
    booked := db.BookSeats(showId, numSeats);
    cancelled := db.CancelSeats(showId, numSeats);
    if booked {
      BookThenCancel(before, showId, numSeats);
    }
  }

}
