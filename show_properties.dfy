/** What the decide and evolve functions promise together: each command depends only on
    the seat it names, the events `Process` emits always apply, reserving and then
    cancelling restores the snapshot, and over a whole history the seat set of a
    well-formed show never changes. */
module ShowProperties {
  import opened Wrappers
  import opened Domain
  import opened ShowAggregate

  /** Folds an event history into a snapshot, one `Apply` at a time, stopping at the
      first event that cannot be applied. */
  ghost function Replay(show: Show, events: seq<ShowEvent>): (r: Evolution<Show>)
    decreases |events|
  {
    if events == [] then Ok(show)
    else
      match Apply(show, events[0])
      case IllegalState(reason) => IllegalState(reason)
      case Ok(next) => Replay(next, events[1..])
  }

  /** Drives the aggregate through a series of commands, each paired with the time the
      clock reads when it is decided: a rejected command leaves the snapshot as it is, an
      accepted one has its events folded in. */
  ghost function Execute(show: Show, commands: seq<(ShowCommand, Timestamp)>): (r: Evolution<Show>)
    decreases |commands|
  {
    if commands == [] then Ok(show)
    else
      match Process(show, commands[0].0, commands[0].1)
      case Left(_) => Execute(show, commands[1..])
      case Right(events) =>
        match Replay(show, events)
        case IllegalState(reason) => IllegalState(reason)
        case Ok(next) => Execute(next, commands[1..])
  }

  /** Whether and how a reservation is decided depends only on the show's id and on seat
      `n`: the other seats, the title and the show id carried by the command play no part. */
  lemma ReservationDependsOnlyOnSeat(a: Show, b: Show, n: SeatNumber, idA: ShowId, idB: ShowId, now: Timestamp)
    requires a.id == b.id
    requires n in a.seats <==> n in b.seats
    requires n in a.seats ==> a.seats[n].status == b.seats[n].status
    ensures Process(a, ReserveSeat(idA, n), now) == Process(b, ReserveSeat(idB, n), now)
  {
  }

  /** The same locality for cancelling a reservation. */
  lemma CancellationDependsOnlyOnSeat(a: Show, b: Show, n: SeatNumber, idA: ShowId, idB: ShowId, now: Timestamp)
    requires a.id == b.id
    requires n in a.seats <==> n in b.seats
    requires n in a.seats ==> a.seats[n].status == b.seats[n].status
    ensures Process(a, CancelSeatReservation(idA, n), now) == Process(b, CancelSeatReservation(idB, n), now)
  {
  }

  /** Applying SeatReserved for an existing seat of a well-formed show reserves exactly
      that seat and leaves the id, the title, the seat numbers and every other seat as they were. */
  lemma ApplySeatReservedEffect(show: Show, e: ShowEvent)
    requires WellFormed(show) && e.SeatReserved? && e.seatNumber in show.seats
    ensures Apply(show, e).Ok?
    ensures var next := Apply(show, e).value;
      next.id == show.id && next.title == show.title && next.seats.Keys == show.seats.Keys
      && next.seats[e.seatNumber] == Seat(e.seatNumber, Reserved)
      && forall k :: k in show.seats && k != e.seatNumber ==> next.seats[k] == show.seats[k]
  {
  }

  /** Applying SeatReservationCancelled for an existing seat of a well-formed show makes
      exactly that seat available and leaves everything else as it was. */
  lemma ApplySeatReservationCancelledEffect(show: Show, e: ShowEvent)
    requires WellFormed(show) && e.SeatReservationCancelled? && e.seatNumber in show.seats
    ensures Apply(show, e).Ok?
    ensures var next := Apply(show, e).value;
      next.id == show.id && next.title == show.title && next.seats.Keys == show.seats.Keys
      && next.seats[e.seatNumber] == Seat(e.seatNumber, Available)
      && forall k :: k in show.seats && k != e.seatNumber ==> next.seats[k] == show.seats[k]
  {
  }

  /** `Apply` writes the seat back under the seat's own number, so on a show whose map
      stores a seat under a different key it adds a seat number: well-formedness is needed. */
  lemma ApplyOnMisKeyedShowAddsSeat()
    ensures var show := Show(ShowId("s"), "t", map[SeatNumber(1) := Seat(SeatNumber(2), Available)]);
      var r := Apply(show, SeatReserved(show.id, Timestamp(0), SeatNumber(1)));
      r.Ok? && r.value.seats.Keys == {SeatNumber(1), SeatNumber(2)} != show.seats.Keys
  {
  }

  /** An event `Process` emits never trips the structural checks of `Apply`: it names a
      seat the show has and is never ShowCreated. */
  lemma ProcessedEventsApply(show: Show, command: ShowCommand, now: Timestamp)
    requires Process(show, command, now).Right?
    ensures Replay(show, Process(show, command, now).right).Ok?
  {
  }

  /** Reserving an available seat of a well-formed show and then cancelling that
      reservation gives back exactly the snapshot one started from. */
  lemma {:induction false} ReserveThenCancelRestoresShow(show: Show, n: SeatNumber, id: ShowId, t1: Timestamp, t2: Timestamp)
    requires WellFormed(show) && n in show.seats && show.seats[n].IsAvailable()
    ensures Process(show, ReserveSeat(id, n), t1) == Right([SeatReserved(show.id, t1, n)])
    ensures var reserved := Apply(show, SeatReserved(show.id, t1, n));
      reserved.Ok?
      && Process(reserved.value, CancelSeatReservation(id, n), t2) == Right([SeatReservationCancelled(show.id, t2, n)])
      && Apply(reserved.value, SeatReservationCancelled(show.id, t2, n)) == Ok(show)
  {
    ApplySeatReservedEffect(show, SeatReserved(show.id, t1, n));
    var reserved := Apply(show, SeatReserved(show.id, t1, n)).value;
    ApplySeatReservationCancelledEffect(reserved, SeatReservationCancelled(show.id, t2, n));
    var restored := Apply(reserved, SeatReservationCancelled(show.id, t2, n)).value;
    assert restored.seats == show.seats;
  }

  /** Over any history that applies, a well-formed show stays well-formed and keeps its
      id, its title and its set of seat numbers. */
  lemma {:induction false} ReplayKeepsSeatNumbers(show: Show, events: seq<ShowEvent>)
    requires WellFormed(show)
    ensures Replay(show, events).Ok? ==>
      var last := Replay(show, events).value;
      WellFormed(last) && last.id == show.id && last.title == show.title && last.seats.Keys == show.seats.Keys
    decreases |events|
  {
    if events != [] {
      match Apply(show, events[0])
      case IllegalState(_) =>
      case Ok(next) => ReplayKeepsSeatNumbers(next, events[1..]);
    }
  }

  /** Deciding and applying any series of commands never meets a corrupt event, and a
      well-formed show comes out well-formed with the same id, title and seat numbers. */
  lemma {:induction false} ExecuteNeverCorrupts(show: Show, commands: seq<(ShowCommand, Timestamp)>)
    ensures Execute(show, commands).Ok?
    ensures WellFormed(show) ==>
      var last := Execute(show, commands).value;
      WellFormed(last) && last.id == show.id && last.title == show.title && last.seats.Keys == show.seats.Keys
    decreases |commands|
  {
    if commands != [] {
      var (command, now) := commands[0];
      match Process(show, command, now)
      case Left(_) => ExecuteNeverCorrupts(show, commands[1..]);
      case Right(events) =>
        ProcessedEventsApply(show, command, now);
        var next := Replay(show, events).value;
        if WellFormed(show) {
          ReplayKeepsSeatNumbers(show, events);
        }
        ExecuteNeverCorrupts(next, commands[1..]);
    }
  }

  /** A show with seat A1 available and A2 reserved, with the clock fixed at T. */
  lemma Scenario(id: ShowId, t: Timestamp)
    ensures var a1, a2, a3 := SeatNumber(1), SeatNumber(2), SeatNumber(3);
      var s := Show(id, "Matrix", map[a1 := Seat(a1, Available), a2 := Seat(a2, Reserved)]);
      var s1 := Show(id, "Matrix", map[a1 := Seat(a1, Reserved), a2 := Seat(a2, Reserved)]);
      var s2 := Show(id, "Matrix", map[a1 := Seat(a1, Reserved), a2 := Seat(a2, Available)]);
      Process(s, ReserveSeat(id, a1), t) == Right([SeatReserved(id, t, a1)])
      && Apply(s, SeatReserved(id, t, a1)) == Ok(s1)
      && Process(s1, ReserveSeat(id, a2), t) == Left(SeatNotAvailable)
      && Process(s1, CancelSeatReservation(id, a2), t) == Right([SeatReservationCancelled(id, t, a2)])
      && Apply(s1, SeatReservationCancelled(id, t, a2)) == Ok(s2)
      && Process(s, ReserveSeat(id, a3), t) == Left(SeatNotExists)
  {
    var a1, a2 := SeatNumber(1), SeatNumber(2);
    var s := Show(id, "Matrix", map[a1 := Seat(a1, Available), a2 := Seat(a2, Reserved)]);
    var s1 := Show(id, "Matrix", map[a1 := Seat(a1, Reserved), a2 := Seat(a2, Reserved)]);
    var s2 := Show(id, "Matrix", map[a1 := Seat(a1, Reserved), a2 := Seat(a2, Available)]);
    assert Apply(s, SeatReserved(id, t, a1)).value.seats == s1.seats;
    assert Apply(s1, SeatReservationCancelled(id, t, a2)).value.seats == s2.seats;
  }
}
