/** The value types of the reservation domain: identifiers, seats, and the closed
    vocabularies of commands, events and command errors that the Show aggregate speaks. */
module Domain {

  /** Identifier of a show. */
  datatype ShowId = ShowId(value: string)

  /** Identifier of a seat within a show. */
  datatype SeatNumber = SeatNumber(value: int)

  /** A point in time, as read from the clock. */
  datatype Timestamp = Timestamp(epochMillis: int)

  /** The two states a seat can be in. */
  datatype SeatStatus = Available | Reserved

  /** A seat: its number and its status. */
  datatype Seat = Seat(number: SeatNumber, status: SeatStatus) {

    predicate IsAvailable() { status == Available }

    predicate IsReserved() { status == Reserved }

    /** A copy of this seat, now reserved. */
    function AsReserved(): (s: Seat)
      ensures s.number == number && s.IsReserved()
    {
      Seat(number, Reserved)
    }

    /** A copy of this seat, now available. */
    function AsAvailable(): (s: Seat)
      ensures s.number == number && s.IsAvailable()
    {
      Seat(number, Available)
    }
  }

  /** The complete starting snapshot carried by a ShowCreated event. */
  datatype InitialShow = InitialShow(id: ShowId, title: string, seats: map<SeatNumber, Seat>)

  /** Requests against a show. */
  datatype ShowCommand =
    | CreateShow(showId: ShowId, title: string)
    | ReserveSeat(showId: ShowId, seatNumber: SeatNumber)
    | CancelSeatReservation(showId: ShowId, seatNumber: SeatNumber)

  /** Facts recorded about a show. */
  datatype ShowEvent =
    | ShowCreated(showId: ShowId, createdAt: Timestamp, initialShow: InitialShow)
    | SeatReserved(showId: ShowId, createdAt: Timestamp, seatNumber: SeatNumber)
    | SeatReservationCancelled(showId: ShowId, createdAt: Timestamp, seatNumber: SeatNumber)

  /** The recoverable rejections of a command. */
  datatype ShowCommandError =
    | ShowAlreadyExists
    | SeatNotExists
    | SeatNotAvailable
    | SeatNotReserved
}
