/**
 Types shared by the modules.
 */
module Basics {
  type uint8 = x: int | 0 <= x < 0x100
  type uint64 = x: int | 0 <= x < 0x1_0000_0000_0000_0000

  // Stands for no door, or a door that does not exist (include/gpio_hal.h).
  const DOOR_UNKNOWN: uint8 := 255

  datatype Option<T> = None | Some(value: T)
}
