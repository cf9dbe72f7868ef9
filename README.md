# koekbar background poller, modelled in Dafny

koekbar is a small status bar. A background thread polls the active media
player over MPRIS and the wall clock, and hands one `StatusUpdate` per tick to
the GTK front end through a bounded channel. This project models that thread
(`src/background.rs`) and the two records it produces (`src/types.rs`):

- `types.dfy` (module `Types`): `MediaInfo` (title, optional author,
  application) and `StatusUpdate` (time, optional media).
- `wrappers.dfy` (module `Wrappers`): `Option` and `Result`, with
  `Result.ToOption` standing for Rust's `.ok()`.
- `background.dfy` (module `Background`):
  - `GetMediaInfo` models `get_media_info`. The three MPRIS calls become one
    input datatype, `MprisState`: the bus cannot be opened, no player is
    active, the player has no metadata, or the metadata itself. The metadata
    holds the `xesam:title` and `xesam:albumArtist` entries of the MPRIS D-Bus
    Interface Specification, each possibly missing.
  - `QueryMedia` is `get_media_info().ok()`.
  - `Spawn` models the loop started by `BackgroundService::spawn` as a method
    with a `while` loop over the same two variables: `mediaMod` and the cached
    `mediaInfo`. Each iteration's environment is a `Tick`. A tick holds what
    the MPRIS query would answer if it ran then, the value `Local::now()`
    returns, and whether the blocking send succeeds.
  - `Spawn`'s contract states its results in closed form through `UpdateAt`
    and `LatestQueryAt`. Query iteration i is 5 * i, and n iterations make
    ceil(n/5) queries.
  - `CounterAtHead` appears only in the loop invariant. It ties `mediaMod`
    to the iteration number, and lemmas state its range and step.
  - `RefreshIterations` is a recursive reference definition of the refresh
    iterations. It is not in `Spawn`'s contract.
    `QueriesAreRefreshIterations` shows that the contract's closed form
    equals it.

The query made before the loop (line 20) is modelled. `Spawn`'s contract
never mentions its result. That is a property of the source: iteration 0
always queries again and overwrites it, so this first result is never sent.

## Model

| member | source | states |
|---|---|---|
| Background.Truncate | src/background.rs:60 | the result is the prefix of the list of length min(n, length): exactly n elements of a longer list, the whole list otherwise |
| Background.Join | src/background.rs:61 | the joined string starts with the first name, and its length is the names' total length plus one separator between each two neighbours |
| Background.JoinSnoc | src/background.rs:61 | for any names, commas included, joining one more name appends the separator and that name; with a single name joining to itself, this fixes the whole joined string |
| Background.Author | src/background.rs:57-63 | the author is absent exactly when the album-artist entry is absent |
| Background.AuthorExamples | src/background.rs:57-63 | ["A","B","C","D"] gives "A, B, C"; ["A","B"] gives "A, B"; an empty list gives Some("") |
| Background.JoinSplit | src/background.rs:61 | every string is rebuilt by joining its ", "-pieces, so splitting is injective and the author string is determined by the names Split recovers |
| Background.SplitJoin | src/background.rs:61 | joining one or more comma-free names with ", " is undone by splitting at ", ", so no name is lost or merged |
| Background.AuthorNames | src/background.rs:57-63 | for a non-empty list of comma-free artists, the author string holds exactly the first min(3, n) artists, in order |
| Background.GetMediaInfo | src/background.rs:50-77 | succeeds exactly when metadata was read; each failing call gives its own message; on success the title is the metadata title or "Unknown", the application is "Idk", and the author is absent exactly when album artists are absent |
| Background.QueryMedia | src/background.rs:24 | the cached value is None exactly when opening the bus, finding an active player or reading metadata failed |
| Background.FailuresIndistinguishable | src/background.rs:51-75 | the three failures carry different errors, yet all become the same None after `.ok()` |
| Background.CachedAuthorNames | src/background.rs:57-71 | a query of metadata with non-empty, comma-free album artists yields a cached MediaInfo whose author string names exactly the first min(3, n) artists in order, and whose title is the metadata title or "Unknown" |
| Wrappers.Result.ToOption | src/background.rs:24 | `.ok()` gives Some exactly for Ok, carrying its value, and None for every error |
| Background.CounterAtHeadRange | src/background.rs:21-28 | at the loop head the counter lies in 0 to 5 inclusive and is 0 only before the first iteration |
| Background.CounterRefreshes | src/background.rs:23 | the test `media_mod % 5 == 0` holds exactly on iterations 0, 5, 10, ... |
| Background.CounterStep | src/background.rs:23-28 | the reset-then-increment step takes the counter to its next head value, which is in 1 to 5 inclusive |
| Background.LatestQueryIsMostRecent | src/background.rs:22-26 | the media sent on iteration k comes from the last refresh iteration at or before k |
| Background.CacheReused | src/background.rs:23-32 | on an iteration that does not refresh, the update carries the same media as the previous iteration's update |
| Background.RefreshIterationsMembers | src/background.rs:22-26 | among the first n iterations, the media is queried on exactly the multiples of 5, in increasing order, ceil(n/5) times, the i-th on iteration 5 * i |
| Background.QueriesAreRefreshIterations | src/background.rs:22-26 | the queries Spawn reports over n iterations are exactly the refresh iterations, so iteration k queries exactly when k is a multiple of 5 |
| Background.Spawn | src/background.rs:17-47 | one update per iteration, in iteration order, each with that iteration's clock and the media of the latest query; the i-th query happens on iteration 5 * i and ceil(n/5) queries happen in n iterations, the failing one included; after a successful send the loop goes on; the first failed send ends it, and nothing is queried or sent after it |

## Left out

- The thread, `thread::sleep` and the tick period `update_period`: the model runs the iterations back to back. The period has no other effect.
- The channel `async_channel::bounded(1)` and its blocking backpressure: each send is an input that either succeeds or fails.
- Spawn: the source loop never ends while sends succeed. The model observes it for a finite number of iterations, one per `Tick` given.
- `Local::now()`: the timestamp is an input value per iteration. Nothing is stated about its ordering, because the code promises nothing about it.
- The MPRIS calls `PlayerFinder::new`, `find_active` and `get_metadata`: they are replaced by the input datatype `MprisState`.
- The `eprintln!` diagnostic on a failed send: output only.
- `src/main.rs`, the GTK window, the labels and the date and time formatting: GUI code, not part of this model.
- Rust's `String` is UTF-8 bytes; the model uses `seq<char>`. The join and truncation work on whole names, so this does not matter.
- The counter `media_mod` is a 32-bit integer in Rust. It never exceeds 5 (`CounterAtHeadRange`), so no overflow is modelled.
