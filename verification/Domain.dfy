/** The core types of the venue: table state, bookings and the messages that
    travel between the backend and the relay board.  Instants are whole
    milliseconds since the epoch. */
module Domain {

  datatype Option<+T> = None | Some(value: T)

  /** A document identifier. */
  type Id = nat

  /** `NoLight` is the zero value Go reads for a table the map does not hold. */
  datatype LightStatus = NoLight | LightOn | LightOff | LightPendingOn | LightPendingOff

  datatype TableStatus = NoStatus | Available | Busy

  /** The live booking shown on a busy table.  Its times are RFC 3339 texts
      without a fraction, so they carry whole seconds only. */
  datatype CurrentBooking = CurrentBooking(
    bookingId: Id,
    bookerName: string,
    bookerMobile: string,
    checkInSec: int,
    checkOutSec: int,
    durationMinutes: int,
    amount: real,
    isPaid: bool)

  datatype TableState = TableState(status: TableStatus, light: LightStatus, booking: Option<CurrentBooking>)

  datatype BookingStatus = Active | Cancelled

  datatype Booking = Booking(
    tableId: nat,
    bookerName: string,
    bookerMobile: string,
    checkIn: int,
    checkOut: int,
    durationMinutes: int,
    amount: real,
    isPaid: bool,
    status: BookingStatus,
    createdBy: string,
    createdAt: int)

  /** A relay command; table 0 stands for all tables. */
  datatype MqttCommand = MqttCommand(commandId: string, tableId: int, on: bool)

  /** Backend to board: one relay command, or a full snapshot whose entry
      `i` belongs to table `i + 1`. */
  datatype ToDevice = Set(cmd: MqttCommand) | Sync(lit: seq<bool>)

  /** Board to backend; table 0 acknowledges a command for all tables. */
  datatype FromDevice = Ack(commandId: string, tableId: int, on: bool) | SyncAck

  /** How many relay commands may wait to be published. */
  const CHANNEL_CAPACITY := 16

  /** The on/off value a light status stands for. */
  predicate Lit(l: LightStatus) {
    l == LightOn || l == LightPendingOn
  }

  predicate Pending(l: LightStatus) {
    l == LightPendingOn || l == LightPendingOff
  }

  predicate IsTable(t: int) {
    1 <= t <= 4
  }

  /** Does a command or acknowledgement addressed to `target` concern table `t`? */
  predicate Touches(target: int, t: int) {
    target == 0 || target == t
  }

  /** The whole seconds that survive the RFC 3339 text of an instant. */
  function WholeSeconds(ms: int): int {
    ms / 1000
  }

  function ToCurrent(id: Id, b: Booking): CurrentBooking {
    CurrentBooking(id, b.bookerName, b.bookerMobile, WholeSeconds(b.checkIn), WholeSeconds(b.checkOut),
                   b.durationMinutes, b.amount, b.isPaid)
  }

  /** The cache shows the booking's own fields, its instants to the whole second. */
  lemma ShowsOwnFields(id: Id, b: Booking)
    ensures var c := ToCurrent(id, b);
            && c.bookingId == id && c.bookerName == b.bookerName && c.bookerMobile == b.bookerMobile
            && c.checkInSec * 1000 <= b.checkIn < (c.checkInSec + 1) * 1000
            && c.checkOutSec * 1000 <= b.checkOut < (c.checkOutSec + 1) * 1000
            && c.durationMinutes == b.durationMinutes && c.amount == b.amount && c.isPaid == b.isPaid
  {
  }

  function Decimal(n: nat): (s: string)
    ensures s != ""
  {
    var digit := ['0' + (n % 10) as char];
    if n < 10 then digit else Decimal(n / 10) + digit
  }

  /** The command the table service builds at a given millisecond. */
  function NewCommand(nowMs: nat, target: nat, on: bool): (cmd: MqttCommand)
    ensures cmd.commandId != "" && cmd.tableId == target && cmd.on == on
  {
    MqttCommand("cmd_" + Decimal(nowMs) + "_" + Decimal(target), target, on)
  }
}
