# Show reservation aggregate

A model of the event-sourced `Show` aggregate of a cinema reservation service. A show
is an immutable snapshot: an id, a title and a map from seat number to seat, each seat
Available or Reserved. Three entry points act on it:

- `Create` builds the first snapshot from the payload of a `ShowCreated` event, verbatim.
- `Process` (the decide function) maps a command and the current time to either one of four
  command errors or a list of new events; it changes nothing.
- `Apply` (the evolve function) folds one event into the next snapshot. Applying
  `ShowCreated`, or an event that names a seat the show does not have, is a fatal error
  (an `IllegalStateException` in the source). The model returns it as
  `IllegalState(reason)` of its own `Evolution` type, kept apart from `ShowCommandError`.

Modules:

- `Wrappers` (wrappers.dfy): `Option`, a two-variant `Either`, and `Get`, the map lookup that returns an `Option`.
- `Domain` (domain.dfy): the seat, the identifiers, and the command, event and error vocabularies.
- `ShowAggregate` (show.dfy): the aggregate and its operations, one function per method of the source.
- `ShowProperties` (show_properties.dfy): what the operations promise together.
  `Replay` folds a whole event history through `Apply`. `Execute` decides and applies a series of commands.
  Both are ghost specification functions for the lemmas. They are not functions of the source.

`Apply` writes the updated seat back under `seat.number()`, not under the seat number the
event names (src/main/java/workshop/cinema/reservation/domain/Show.java:70 and :75).
So the set of seat numbers stays fixed only while every map key equals the number of the seat
stored under it. That invariant is `WellFormed`:

- `Create` establishes it whenever the payload has it.
- `Apply` preserves it.
- `ApplyOnMisKeyedShowAddsSeat` exhibits a show without it on which `Apply` adds a seat number.

The clock is read once per accepted command. It is a `Timestamp` parameter `now`.

## Model

| member | source | states |
|---|---|---|
| ShowAggregate.Create | src/main/java/workshop/cinema/reservation/domain/Show.java:25-28 | the snapshot takes id, title and seats from the `ShowCreated` payload unchanged, and is well-formed whenever the payload's seats are keyed by their numbers |
| ShowAggregate.Process | src/main/java/workshop/cinema/reservation/domain/Show.java:30-36 | `CreateShow` is always rejected with `ShowAlreadyExists`; a success is exactly one event that carries the show's id, the supplied time and the command's seat number, and is a reservation for `ReserveSeat` and a cancellation for `CancelSeatReservation`; `SeatNotExists` is returned exactly when a seat command names a seat the show lacks |
| ShowAggregate.HandleReservation | src/main/java/workshop/cinema/reservation/domain/Show.java:38-47 | an absent seat gives `SeatNotExists`, a reserved one `SeatNotAvailable`, an available one exactly `[SeatReserved(id, now, n)]`, each case if and only if |
| ShowAggregate.HandleCancellation | src/main/java/workshop/cinema/reservation/domain/Show.java:49-58 | an absent seat gives `SeatNotExists`, an available one `SeatNotReserved`, a reserved one exactly `[SeatReservationCancelled(id, now, n)]`, each case if and only if |
| ShowAggregate.Apply | src/main/java/workshop/cinema/reservation/domain/Show.java:60-66 | fails on `ShowCreated` and on an event whose seat is absent, and succeeds in every other case; a success keeps id and title, and on a well-formed show keeps it well-formed with the same seat numbers |
| ShowAggregate.ApplyReservationCancelled | src/main/java/workshop/cinema/reservation/domain/Show.java:68-71 | succeeds exactly when the seat exists; the seats then become the old map with the seat's own number overwritten by the available copy of that seat (same number), so every other seat is unchanged and at most that number is added to the keys |
| ShowAggregate.ApplyReserved | src/main/java/workshop/cinema/reservation/domain/Show.java:73-76 | succeeds exactly when the seat exists; the seats then become the old map with the seat's own number overwritten by the reserved copy of that seat (same number), so every other seat is unchanged and at most that number is added to the keys |
| ShowAggregate.GetSeatOrThrow | src/main/java/workshop/cinema/reservation/domain/Show.java:78-80 | returns the seat stored under the number when there is one, and otherwise the fatal failure naming that number |
| Wrappers.Get | src/main/java/workshop/cinema/reservation/domain/Show.java:40 | a map lookup is `Some` of the stored seat exactly when the key is present |
| ShowProperties.ReservationDependsOnlyOnSeat | src/main/java/workshop/cinema/reservation/domain/Show.java:38-47 | two shows with the same id that agree on the presence and status of seat `n` decide `ReserveSeat(n)` identically, whatever their other seats and the command's show id |
| ShowProperties.CancellationDependsOnlyOnSeat | src/main/java/workshop/cinema/reservation/domain/Show.java:49-58 | the same locality for `CancelSeatReservation(n)` |
| ShowProperties.ApplySeatReservedEffect | src/main/java/workshop/cinema/reservation/domain/Show.java:73-76 | on a well-formed show with seat `n`, applying `SeatReserved(n)` succeeds, keeps id, title and seat numbers, makes seat `n` reserved and leaves every other seat unchanged |
| ShowProperties.ApplySeatReservationCancelledEffect | src/main/java/workshop/cinema/reservation/domain/Show.java:68-71 | on a well-formed show with seat `n`, applying `SeatReservationCancelled(n)` succeeds, keeps id, title and seat numbers, makes seat `n` available and leaves every other seat unchanged |
| ShowProperties.ApplyOnMisKeyedShowAddsSeat | src/main/java/workshop/cinema/reservation/domain/Show.java:73-76 | on a show that stores seat 2 under key 1, applying `SeatReserved(1)` succeeds and yields the keys {1, 2}, so the seat set is fixed only under well-formedness |
| ShowProperties.ProcessedEventsApply | src/main/java/workshop/cinema/reservation/domain/Show.java:30-80 | the events of any accepted command apply to the show they were decided on without a fatal failure |
| ShowProperties.ReserveThenCancelRestoresShow | src/main/java/workshop/cinema/reservation/domain/Show.java:38-76 | on a well-formed show with seat `n` available, reserve-then-apply followed by cancel-then-apply emits one event each and returns exactly the original show |
| ShowProperties.ReplayKeepsSeatNumbers | src/main/java/workshop/cinema/reservation/domain/Show.java:60-76 | folding any event history that applies into a well-formed show keeps it well-formed with the same id, title and seat numbers |
| ShowProperties.ExecuteNeverCorrupts | src/main/java/workshop/cinema/reservation/domain/Show.java:30-80 | deciding and applying any series of commands never meets a fatal failure, and a well-formed show keeps its id, title and seat numbers throughout |
| ShowProperties.Scenario | src/main/java/workshop/cinema/reservation/domain/Show.java:30-76 | with A1 available and A2 reserved: reserving A1 succeeds and applies, reserving A2 again is `SeatNotAvailable`, cancelling A2 succeeds and applies, reserving an unknown A3 is `SeatNotExists` |

## Left out

- The clock is not modelled. It is only read through `now()`, so each decision takes the time as a `Timestamp` parameter.
- The exception messages of `Apply` and `GetSeatOrThrow` are not modelled, nor the string formatting that builds them. Only the fact of failing is modelled, together with a reason tag.
- The `Serializable` marker is not modelled. Persistence, the event store, versioning and concurrency control belong to infrastructure outside the aggregate.
- The vavr `Map`, `List` and `Either` are not modelled as such. They become a Dafny `map`, a `seq`, and the `Either` of `Wrappers` with the same observable behaviour.
- `Seat`, `SeatNumber`, `ShowId`, `InitialShow`, `ShowCommand`, `ShowEvent` and `ShowCommandError` are defined in other files of the program. They are modelled as minimal datatypes inferred from how Show.java uses them. Their field names beyond those the aggregate reads are guesses.
- `CreateShow` carries a show id and a title, which `Process` ignores.
- The identifiers are plain wrappers: a string for a show, an integer for a seat, epoch milliseconds for a timestamp.
- `Seat.isAvailable`/`isReserved` are taken to test the status. `reserved()`/`available()` (here `AsReserved`/`AsAvailable`) are taken to return a copy with the same number and the new status.
- `Create` requires its event to be a `ShowCreated`. In the source that is the static type of its parameter, not a runtime check.
