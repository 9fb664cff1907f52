/**
 * Booking and cancelling seats of a show, as functions of the tables.
 * Neither operation checks the sign of the count: a negative count passes
 * both guards, and the capacity invariant holds only for counts >= 0.
 */
module Inventory {

  import opened Catalog

  /** Seats of the show that are currently booked. */
  function BookedSeats(s: Show): int {
    s.seats - s.available
  }

  /** The guard of a booking: enough seats are available. */
  predicate BookAccepted(s: Show, n: int) {
    s.available >= n
  }

  /** The guard of a cancellation: at least that many seats are booked. */
  predicate CancelAccepted(s: Show, n: int) {
    BookedSeats(s) >= n
  }

  /** The tables after booking `n` seats of show `id`. */
  function Book(t: Tables, id: ShowId, n: int): Tables
    requires id in t.shows
  {
    var s := t.shows[id];
    if BookAccepted(s, n) then t.(shows := t.shows[id := s.(available := s.available - n)]) else t
  }

  /** The tables after cancelling `n` seats of show `id`. */
  function Cancel(t: Tables, id: ShowId, n: int): Tables
    requires id in t.shows
  {
    var s := t.shows[id];
    if CancelAccepted(s, n) then t.(shows := t.shows[id := s.(available := s.available + n)]) else t
  }

  /**
   * Only the free seats of the target show may change: Movies, the counters,
   * the set of shows, every other show and the target's movie, timing and
   * capacity stay as they were.
   */
  predicate OnlyAvailableChanged(t: Tables, r: Tables, id: ShowId)
    requires id in t.shows
  {
    && r.movies == t.movies
    && r.nextMovieId == t.nextMovieId
    && r.nextShowId == t.nextShowId
    && r.shows.Keys == t.shows.Keys
    && (forall j :: j in t.shows && j != id ==> r.shows[j] == t.shows[j])
    && r.shows[id].movieId == t.shows[id].movieId
    && r.shows[id].timing == t.shows[id].timing
    && r.shows[id].seats == t.shows[id].seats
  }

  /**
   * A booking succeeds exactly when enough seats are free; it then takes `n`
   * seats from the show, and a rejected booking changes nothing.
   */
  lemma BookEffect(t: Tables, id: ShowId, n: int)
    requires id in t.shows
    ensures var r := Book(t, id, n);
      && OnlyAvailableChanged(t, r, id)
      && (t.shows[id].available >= n ==> r.shows[id].available == t.shows[id].available - n)
      && (t.shows[id].available < n ==> r == t)
      && (r != t <==> t.shows[id].available >= n && n != 0)
  {
  }

  /**
   * A cancellation succeeds exactly when at least `n` seats are booked; it then
   * frees `n` seats, and a rejected cancellation changes nothing.
   */
  lemma CancelEffect(t: Tables, id: ShowId, n: int)
    requires id in t.shows
    ensures var r := Cancel(t, id, n);
      && OnlyAvailableChanged(t, r, id)
      && (t.shows[id].seats - t.shows[id].available >= n ==> r.shows[id].available == t.shows[id].available + n)
      && (t.shows[id].seats - t.shows[id].available < n ==> r == t)
      && (r != t <==> t.shows[id].seats - t.shows[id].available >= n && n != 0)
  {
  }

  /** A booking of a non-negative count keeps every show within 0 <= available <= seats. */
  lemma BookWithinCapacity(t: Tables, id: ShowId, n: int)
    requires id in t.shows && AllWithinCapacity(t.shows) && n >= 0
    ensures AllWithinCapacity(Book(t, id, n).shows)
  {
  }

  /** A cancellation of a non-negative count keeps every show within 0 <= available <= seats. */
  lemma CancelWithinCapacity(t: Tables, id: ShowId, n: int)
    requires id in t.shows && AllWithinCapacity(t.shows) && n >= 0
    ensures AllWithinCapacity(Cancel(t, id, n).shows)
  {
  }

  /**
   * Without a sign check a negative count breaks the invariant: booking a
   * negative count on a show with every seat free, or cancelling one on a
   * sold-out show, is accepted and leaves the show out of capacity.
   */
  lemma NegativeCountBreaksCapacity(t: Tables, id: ShowId, n: int)
    requires id in t.shows && WithinCapacity(t.shows[id]) && n < 0
    ensures t.shows[id].available == t.shows[id].seats ==>
      BookAccepted(t.shows[id], n) && !WithinCapacity(Book(t, id, n).shows[id])
    ensures t.shows[id].available == 0 ==>
      CancelAccepted(t.shows[id], n) && !WithinCapacity(Cancel(t, id, n).shows[id])
  {
  }

  /** A concrete instance: -1 seats on a 50-seat show, free and then sold out. */
  lemma NegativeCountExample()
    ensures var t := Tables(map[], map[1 := Show(1, "10:00 AM", 50, 50)], 2, 2);
      && AllWithinCapacity(t.shows)
      && BookAccepted(t.shows[1], -1)
      && !AllWithinCapacity(Book(t, 1, -1).shows)
    ensures var t := Tables(map[], map[1 := Show(1, "10:00 AM", 50, 0)], 2, 2);
      && AllWithinCapacity(t.shows)
      && CancelAccepted(t.shows[1], -1)
      && !AllWithinCapacity(Cancel(t, 1, -1).shows)
  {
    var t := Tables(map[], map[1 := Show(1, "10:00 AM", 50, 50)], 2, 2);
    NegativeCountBreaksCapacity(t, 1, -1);
    var u := Tables(map[], map[1 := Show(1, "10:00 AM", 50, 0)], 2, 2);
    NegativeCountBreaksCapacity(u, 1, -1);
  }

  /** A successful booking followed by cancelling the same count succeeds and restores the tables. */
  lemma BookThenCancel(t: Tables, id: ShowId, n: int)
    requires id in t.shows && t.shows[id].available <= t.shows[id].seats
    requires BookAccepted(t.shows[id], n)
    ensures CancelAccepted(Book(t, id, n).shows[id], n)
    ensures Cancel(Book(t, id, n), id, n) == t
  {
  }

  /** A successful cancellation followed by booking the same count succeeds and restores the tables. */
  lemma CancelThenBook(t: Tables, id: ShowId, n: int)
    requires id in t.shows && 0 <= t.shows[id].available
    requires CancelAccepted(t.shows[id], n)
    ensures BookAccepted(Cancel(t, id, n).shows[id], n)
    ensures Book(Cancel(t, id, n), id, n) == t
  {
  }

  /**
   * A 50-seat show: booking 50 empties it, one more is refused with 0 free,
   * cancelling 10 frees 10, and cancelling 41 is refused with 40 booked.
   */
  lemma SoldOutScenario()
    ensures var t0 := Tables(map[1 := "Avengers"], map[1 := Show(1, "10:00 AM", 50, 50)], 2, 2);
      var t1 := Book(t0, 1, 50);
      var t2 := Book(t1, 1, 1);
      var t3 := Cancel(t2, 1, 10);
      var t4 := Cancel(t3, 1, 41);
      && t1.shows[1].available == 0
      && t2 == t1 && t2.shows[1].available == 0
      && t3.shows[1].available == 10
      && t4 == t3 && BookedSeats(t4.shows[1]) == 40
  {
  }

  // ---------------------------------------------------------------------
  // A run of the program: the menu issues bookings and cancellations one
  // after another, and only for show ids it has just listed.
  // ---------------------------------------------------------------------

  datatype Request = BookRequest(showId: ShowId, count: int) | CancelRequest(showId: ShowId, count: int)

  /** One request; an id that names no show is turned away by the menu and changes nothing. */
  function Serve(t: Tables, req: Request): Tables {
    if req.showId !in t.shows then t
    else match req
      case BookRequest(id, n) => Book(t, id, n)
      case CancelRequest(id, n) => Cancel(t, id, n)
  }

  /** The requests of a run, served in order. */
  function Session(t: Tables, reqs: seq<Request>): Tables
    decreases |reqs|
  {
    if reqs == [] then t else Session(Serve(t, reqs[0]), reqs[1..])
  }

  /**
   * Through any run whose counts are non-negative, every show stays within
   * capacity, and Movies, the counters and the set of shows never change.
   */
  lemma {:induction false} SessionWithinCapacity(t: Tables, reqs: seq<Request>)
    requires AllWithinCapacity(t.shows)
    requires forall i :: 0 <= i < |reqs| ==> reqs[i].count >= 0
    ensures var r := Session(t, reqs);
      && AllWithinCapacity(r.shows)
      && r.movies == t.movies
      && r.shows.Keys == t.shows.Keys
      && r.nextMovieId == t.nextMovieId
      && r.nextShowId == t.nextShowId
    decreases |reqs|
  {
    if reqs != [] {
      var u := Serve(t, reqs[0]);
      if reqs[0].showId in t.shows {
        match reqs[0]
        case BookRequest(id, n) =>
          BookWithinCapacity(t, id, n);
          BookEffect(t, id, n);
        case CancelRequest(id, n) =>
          CancelWithinCapacity(t, id, n);
          CancelEffect(t, id, n);
      }
      SessionWithinCapacity(u, reqs[1..]);
    }
  }

}
