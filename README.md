# PVR booking: seat inventory model

A Dafny model of the seat-inventory core of the PVR booking script
(`pvr_booking.py`). The program keeps two tables in SQLite: **Movies**
(id → title, titles unique) and **Shows** (id → movie id, timing, seats,
available seats). At start-up it deletes duplicate movie rows, keeping the
smallest id per title, and then seeds a built-in catalogue of four movies
with three 50-seat shows each, skipping any title that already exists. After
that its menu books and cancels seats of a show. A booking is a guarded
decrement of `available_seats`. A cancellation is a guarded increment,
bounded by the number of booked seats (`seats - available_seats`).

Layout:

- `wrappers.dfy` (module `Wrappers`): the `Option` type.
- `catalog.dfy` (module `Catalog`): the tables as a value (`Tables`). It also
  holds the cleanup (`RemoveDuplicates`), the seeding loop as functions
  (`AddMovie`, `AddShow`, `AddShows`, `SeedMovieInto`, `Seeded`), start-up
  (`AfterStartup`), and the lemmas about them.
- `inventory.dfy` (module `Inventory`): booking and cancelling as functions of
  the tables (`Book`, `Cancel`) with their lemmas. It also models a run of the
  menu as a sequence of requests (`Session`).
- `database.dfy` (module `PvrBooking`): class `Database`. It owns the two maps
  and the two id counters and changes them in place. Each method is proved
  against the functions above (`Snapshot() == Book(old(Snapshot()), …)`).

Ids are naturals drawn from counters that start at 1. `Valid()` says every
id in use is below its counter, so the counters always hand out fresh ids.

Two behaviours of the source are modelled as written, not corrected:

- Neither `book_seats` nor `cancel_seats` checks the sign of the count. A
  negative count passes both guards and can push `available_seats` out of
  `0..seats`. The capacity lemmas therefore require a count `>= 0`.
  `NegativeCountBreaksCapacity` exhibits the break for both operations.
- An unknown show id would crash on `fetchone()[0]`. The menu only passes ids
  of shows it has just listed, so "the show exists" is a precondition of
  `BookSeats` and `CancelSeats`.

The cleanup deletes movie rows only. SQLite does not enforce the `FOREIGN KEY`
unless asked to, so shows of a deleted duplicate stay in Shows. The model keeps
them too.

## Model

| member | source | states |
|---|---|---|
| `PvrBooking.Database.constructor` | pvr_booking.py:8-18 | new tables are empty and both id counters start at 1 |
| `PvrBooking.Database.RemoveDuplicateMovies` | pvr_booking.py:30 | Movies becomes `RemoveDuplicates` of the old table; Shows and the counters are unchanged |
| `Catalog.FirstWithTitle` | pvr_booking.py:30 | every title in Movies has a row whose id is the smallest among the rows with that title |
| `Catalog.RemoveDuplicatesSpec` | pvr_booking.py:30 | the cleanup keeps a subset of the rows unchanged, leaves each title at most once, loses no title, and the surviving row of a title has its minimum id |
| `Catalog.RemoveDuplicatesKeepsUnique` | pvr_booking.py:30 | a Movies table whose titles are already unique is left untouched |
| `PvrBooking.Database.MovieExists` | pvr_booking.py:34-36 | finds a row exactly when some movie has the title, the row found has that title, and it is the only one when titles are unique |
| `PvrBooking.Database.InsertMovie` | pvr_booking.py:41-42 | inserts the title under the next id, which was free, and returns that id (the `lastrowid`) |
| `PvrBooking.Database.InsertShow` | pvr_booking.py:44-45 | inserts a show under the next free id with `available_seats = seats` and returns the id |
| `PvrBooking.Database.SeedCatalog` | pvr_booking.py:39-45 | the loop leaves the tables equal to `Seeded` of the old tables and the catalogue |
| `Catalog.AddShowsEffect` | pvr_booking.py:43-45 | inserting a movie's shows takes consecutive fresh ids, gives each new show `available_seats = seats`, and leaves Movies and every existing show unchanged |
| `Catalog.SeedMovieIntoEffect` | pvr_booking.py:39-45 | a movie is inserted, with its shows, only when its title is absent; otherwise nothing changes |
| `Catalog.SeededOnlyAdds` | pvr_booking.py:39-45 | seeding never removes or alters an existing movie or show, so it never resets `available_seats` |
| `Catalog.SeededCoversCatalog` | pvr_booking.py:39-45 | after seeding, every title of the catalogue is present |
| `Catalog.SeededNoOp` | pvr_booking.py:39-45 | seeding a catalogue whose titles are all present changes nothing |
| `Catalog.SeededIdempotent` | pvr_booking.py:39-45 | running the seeding a second time changes nothing |
| `Catalog.SeededKeepsTitlesUnique` | pvr_booking.py:39-45 | seeding never creates a second row for a title |
| `Catalog.SeededWithinCapacity` | pvr_booking.py:43-45 | seeding shows with non-negative seats keeps every show within `0 <= available <= seats` |
| `PvrBooking.Database.Startup` | pvr_booking.py:29-47 | start-up leaves the tables equal to `AfterStartup` of the old ones: cleanup, then seeding of the built-in catalogue |
| `Catalog.StartupIdempotent` | pvr_booking.py:22-47 | after start-up titles are unique and all four built-in titles are present; starting again changes nothing |
| `Catalog.StartupWithinCapacity` | pvr_booking.py:22-47 | start-up keeps every show within capacity, since every built-in show has 50 seats |
| `PvrBooking.Database.BookSeats` | pvr_booking.py:65-74 | accepted exactly when `available_seats >= num_seats`; the tables become `Book` of the old ones |
| `Inventory.BookEffect` | pvr_booking.py:66-74 | a booking changes only the target show's `available_seats`, by `-num_seats` when accepted; a rejected booking changes nothing |
| `Inventory.BookWithinCapacity` | pvr_booking.py:68-70 | for `num_seats >= 0`, booking keeps every show within `0 <= available <= seats` |
| `PvrBooking.Database.CancelSeats` | pvr_booking.py:76-85 | accepted exactly when `seats - available_seats >= num_seats`; the tables become `Cancel` of the old ones |
| `Inventory.CancelEffect` | pvr_booking.py:77-85 | a cancellation changes only the target show's `available_seats`, by `+num_seats` when accepted; a rejected one changes nothing |
| `Inventory.CancelWithinCapacity` | pvr_booking.py:79-81 | for `num_seats >= 0`, cancelling keeps every show within `0 <= available <= seats` |
| `Inventory.NegativeCountBreaksCapacity` | pvr_booking.py:68-81 | on a show within capacity, any negative count passes the booking guard when every seat is free, and the cancel guard when the show is sold out; either way the show ends outside `0..seats` |
| `Inventory.NegativeCountExample` | pvr_booking.py:68-81 | a count of -1 on a 50-seat show, free and then sold out, passes both guards and leaves the show outside `0..seats` |
| `Inventory.BookThenCancel` | pvr_booking.py:68-81 | on a show with `available_seats <= seats`, an accepted booking followed by cancelling the same count is accepted and restores the tables |
| `Inventory.CancelThenBook` | pvr_booking.py:68-81 | on a show with `available_seats >= 0`, an accepted cancellation followed by booking the same count is accepted and restores the tables |
| `PvrBooking.BookThenCancelSeats` | pvr_booking.py:65-85 | on the object, for a show with `available_seats <= seats`: the booking is accepted exactly when `available_seats >= num_seats`; when it is, the following `cancel_seats` is accepted too and both tables end as they started; when it is not, the tables end as the cancellation alone leaves them |
| `Inventory.SoldOutScenario` | pvr_booking.py:65-85 | on a 50-seat show: book 50 leaves 0, book 1 is refused, cancel 10 leaves 10, cancel 41 is refused with 40 booked |
| `Inventory.SessionWithinCapacity` | pvr_booking.py:106-131 | through any run of bookings and cancellations with non-negative counts every show stays within capacity, and Movies, the counters and the set of shows never change |

## Left out

- The SQLite connection, cursor, `CREATE TABLE` and `commit` calls (lines 1-20, 47, 138) are storage plumbing. The tables are in-memory maps, and each operation is one atomic step.
- `display_movies` and `display_shows` (lines 49-63) only print rows. The model keeps only what the menu takes from them: a show id it accepts names an existing show.
- The interactive menu, `input`/`int()` parsing and the "Invalid choice" branches (lines 88-136) are UI. `Inventory.Session` abstracts a run of the menu to the sequence of requests it serves.
- All `print` messages are output only. The model returns whether a booking or cancellation was accepted instead.
- `PvrBooking.Database.InsertMovie` requires the title to be absent. The `UNIQUE` constraint would raise on a duplicate, and the seeding loop only inserts after `movie_exists` found nothing.
- PvrBooking.Database.BookSeats: stored values are unbounded integers. If the new `available_seats` falls outside SQLite's signed 64-bit range (a count below `available_seats - 2**63 + 1`), the real `UPDATE` raises `OverflowError` and the program stops without updating. The model instead accepts the booking and stores the value.
- PvrBooking.Database.CancelSeats: same gap. If the new value `available_seats + num_seats` falls outside the signed 64-bit range, the real program raises `OverflowError`. The model stores the unbounded value instead.
- `AUTOINCREMENT` gap semantics and `FOREIGN KEY` enforcement are not modelled: ids come from counters, and orphaned shows stay.
- `PvrBooking.Database.MovieExists` returns some row with the title rather than the first row SQLite would return. The two agree whenever titles are unique, which holds after start-up.
- Concurrency, locking, transactions, durability and a booking-event ledger do not exist in the program. It is one sequential process, so none is modelled.
