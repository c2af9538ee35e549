/** Fixed configuration of the ticket shop (functions.py, lines 3-8). */
module Config {
  /** Price of one ticket in Czech crowns. */
  const Price: int := 300
  /** Ceiling on the number of tickets in one request. */
  const TicketLimit: int := 21
  /** An unpaid, uncollected booking older than this many days is released. */
  const BookingDaysLimit: int := 3
  /** Table ids shown on the hall map run from 1 to LastTable. */
  const LastTable: int := 113
}
