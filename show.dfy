/** The event-sourced Show aggregate: a factory that builds the first snapshot from a
    ShowCreated event, a decide function (`Process`) that turns a command into either a
    command error or new events, and an evolve function (`Apply`) that folds one event
    into the next snapshot. Every operation returns a new value; nothing is updated in place. */
module ShowAggregate {
  import opened Wrappers
  import opened Domain

  /** An immutable snapshot of one show's seating. */
  datatype Show = Show(id: ShowId, title: string, seats: map<SeatNumber, Seat>)

  /** Why replaying an event is impossible: a corrupt history, not a business rejection. */
  datatype IllegalStateReason =
    | AlreadyCreated
    | SeatMissing(seatNumber: SeatNumber)

  /** The outcome of evolving a snapshot: a value, or the fatal failure the aggregate
      raises as an exception. Kept apart from ShowCommandError on purpose. */
  datatype Evolution<+T> = Ok(value: T) | IllegalState(reason: IllegalStateReason)

  /** Every seat is stored under its own number. `Apply` writes the updated seat back
      under the seat's number, so only this keeps the key set fixed. */
  predicate SeatsKeyedByNumber(seats: map<SeatNumber, Seat>)
  {
    forall n :: n in seats ==> seats[n].number == n
  }

  predicate WellFormed(show: Show)
  {
    SeatsKeyedByNumber(show.seats)
  }

  /** Builds the first snapshot from the payload of a ShowCreated event, verbatim. */
  function Create(showCreated: ShowEvent): (show: Show)
    requires showCreated.ShowCreated?
    ensures show.id == showCreated.initialShow.id
    ensures show.title == showCreated.initialShow.title
    ensures show.seats == showCreated.initialShow.seats
    ensures SeatsKeyedByNumber(showCreated.initialShow.seats) ==> WellFormed(show)
  {
    var initial := showCreated.initialShow;
    Show(initial.id, initial.title, initial.seats)
  }

  /** Decides a command against the current snapshot at time `now`. Changes nothing. */
  function Process(show: Show, command: ShowCommand, now: Timestamp): (r: Either<ShowCommandError, seq<ShowEvent>>)
    ensures command.CreateShow? ==> r == Left(ShowAlreadyExists)
    ensures r.Right? ==> |r.right| == 1 && r.right[0].showId == show.id && r.right[0].createdAt == now
    ensures r.Right? ==> !r.right[0].ShowCreated? && r.right[0].seatNumber == command.seatNumber
    ensures r.Right? ==> command.ReserveSeat? == r.right[0].SeatReserved?
    ensures r == Left(SeatNotExists) <==> !command.CreateShow? && command.seatNumber !in show.seats
  {
    match command
    case CreateShow(_, _) => Left(ShowAlreadyExists)
    case ReserveSeat(_, n) => HandleReservation(show, n, now)
    case CancelSeatReservation(_, n) => HandleCancellation(show, n, now)
  }

  /** Reserving seat `n`: it must exist and be available. */
  function HandleReservation(show: Show, n: SeatNumber, now: Timestamp): (r: Either<ShowCommandError, seq<ShowEvent>>)
    ensures r == Left(SeatNotExists) <==> n !in show.seats
    ensures r == Left(SeatNotAvailable) <==> n in show.seats && show.seats[n].IsReserved()
    ensures r.Right? <==> n in show.seats && show.seats[n].IsAvailable()
    ensures r.Right? ==> r.right == [SeatReserved(show.id, now, n)]
  {
    match Get(show.seats, n)
    case None => Left(SeatNotExists)
    case Some(seat) =>
      if seat.IsAvailable() then Right([SeatReserved(show.id, now, n)]) else Left(SeatNotAvailable)
  }

  /** Cancelling the reservation of seat `n`: it must exist and be reserved. */
  function HandleCancellation(show: Show, n: SeatNumber, now: Timestamp): (r: Either<ShowCommandError, seq<ShowEvent>>)
    ensures r == Left(SeatNotExists) <==> n !in show.seats
    ensures r == Left(SeatNotReserved) <==> n in show.seats && show.seats[n].IsAvailable()
    ensures r.Right? <==> n in show.seats && show.seats[n].IsReserved()
    ensures r.Right? ==> r.right == [SeatReservationCancelled(show.id, now, n)]
  {
    match Get(show.seats, n)
    case None => Left(SeatNotExists)
    case Some(seat) =>
      if seat.IsReserved() then Right([SeatReservationCancelled(show.id, now, n)]) else Left(SeatNotReserved)
  }

  /** Folds one event into the snapshot. Fails on ShowCreated (creation goes through
      `Create`) and on an event naming a seat the show does not have. */
  function Apply(show: Show, event: ShowEvent): (r: Evolution<Show>)
    ensures event.ShowCreated? ==> r == IllegalState(AlreadyCreated)
    ensures !event.ShowCreated? && event.seatNumber !in show.seats ==> r == IllegalState(SeatMissing(event.seatNumber))
    ensures r.Ok? <==> !event.ShowCreated? && event.seatNumber in show.seats
    ensures r.Ok? ==> r.value.id == show.id && r.value.title == show.title
    ensures r.Ok? && WellFormed(show) ==> WellFormed(r.value) && r.value.seats.Keys == show.seats.Keys
  {
    match event
    case ShowCreated(_, _, _) => IllegalState(AlreadyCreated)
    case SeatReserved(_, _, n) => ApplyReserved(show, n)
    case SeatReservationCancelled(_, _, n) => ApplyReservationCancelled(show, n)
  }

  /** Cancelling takes the seat found under `n` and stores its available copy under
      that seat's own number. */
  function ApplyReservationCancelled(show: Show, n: SeatNumber): (r: Evolution<Show>)
    ensures r.Ok? <==> n in show.seats
    ensures r.Ok? ==> r.value.id == show.id && r.value.title == show.title
    ensures r.Ok? ==> var m := show.seats[n].number;
      r.value.seats == show.seats[m := show.seats[n].AsAvailable()]
      && r.value.seats[m].number == m && r.value.seats[m].IsAvailable()
      && r.value.seats.Keys == show.seats.Keys + {m}
      && forall k :: k in show.seats && k != m ==> r.value.seats[k] == show.seats[k]
  {
    match GetSeatOrThrow(show, n)
    case IllegalState(reason) => IllegalState(reason)
    case Ok(seat) => Ok(Show(show.id, show.title, show.seats[seat.number := seat.AsAvailable()]))
  }

  /** Reserving takes the seat found under `n` and stores its reserved copy under
      that seat's own number. */
  function ApplyReserved(show: Show, n: SeatNumber): (r: Evolution<Show>)
    ensures r.Ok? <==> n in show.seats
    ensures r.Ok? ==> r.value.id == show.id && r.value.title == show.title
    ensures r.Ok? ==> var m := show.seats[n].number;
      r.value.seats == show.seats[m := show.seats[n].AsReserved()]
      && r.value.seats[m].number == m && r.value.seats[m].IsReserved()
      && r.value.seats.Keys == show.seats.Keys + {m}
      && forall k :: k in show.seats && k != m ==> r.value.seats[k] == show.seats[k]
  {
    match GetSeatOrThrow(show, n)
    case IllegalState(reason) => IllegalState(reason)
    case Ok(seat) => Ok(Show(show.id, show.title, show.seats[seat.number := seat.AsReserved()]))
  }

  /** The seat stored under `n`, or the fatal failure when there is none. */
  function GetSeatOrThrow(show: Show, n: SeatNumber): (r: Evolution<Seat>)
    ensures r.Ok? <==> n in show.seats
    ensures r.Ok? ==> r.value == show.seats[n]
    ensures r.IllegalState? ==> r.reason == SeatMissing(n)
  {
    match Get(show.seats, n)
    case None => IllegalState(SeatMissing(n))
    case Some(seat) => Ok(seat)
  }
}
