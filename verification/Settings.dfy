/**
 The compile-time settings of elevator/utils/settings.go. The constants are left without a value:
 every proof of this project holds for any number of floors and elevators and any timing.
 */
module Settings {
  type AtLeastTwo = n: int | n >= 2 witness 2

  type Positive = n: int | n >= 1 witness 1

  const FLOOR_NUM: AtLeastTwo

  const ELEVATOR_MAX_NUM: Positive

  /** Seconds between two floors, and seconds the door stays open. */
  const TRAVEL_TIME: nat
  const DOOR_OPEN_TIME: nat

  /** Missed heartbeats before an elevator counts as disconnected. */
  const CONNECTION_CHECK_THRESHOLD: Positive

  /** Resends of one packet. */
  const ACK_ATTEMPTS: nat

  /** Packet IDs a receive register holds before it is rotated out. */
  const RX_PACKET_REGISTER_LENGTH: nat

  /** orderHallUp, orderHallDown and orderCab; ORDER_TYPE_NUM of them, the cab last. */
  type OrderType = b: int | 0 <= b < 3

  const ORDER_TYPE_NUM := 3
  const HALL_UP: OrderType := 0
  const HALL_DOWN: OrderType := 1
  const CAB: OrderType := 2

  type Floor = f: int | 0 <= f < FLOOR_NUM witness 0

  type ElevatorID = i: int | 0 <= i < ELEVATOR_MAX_NUM witness 0

  datatype Order = Order(floor: Floor, btn: OrderType)
}
