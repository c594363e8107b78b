/** The size, count and time limits of the manager link, and the one option type the project uses.
    Times are in milliseconds and sizes in bytes. */
module Limits {

  datatype Option<+T> = None | Some(value: T)

  const MAX_INBOUND_WS_BYTES: nat := 5 * 1024 * 1024
  const INBOUND_CHANNEL_SIZE: nat := 256
  const INBOUND_BUDGET_BYTES: nat := 4 * MAX_INBOUND_WS_BYTES
  const COMMAND_QUEUE_SIZE: nat := 64
  const COMMAND_QUEUE_BYTES: nat := 4 * MAX_INBOUND_WS_BYTES
  const OUTBOUND_CHANNEL_SIZE: nat := 256

  const SILENCE_FLOOR: nat := 90_000
  const SILENCE_PINGS: nat := 4
  const SILENCE_CHECK: nat := 5_000
  const PING_GAPS_KEPT: nat := 8
  const MAX_PING_GAP: nat := 300_000

  const WRITE_STALL_LIMIT: nat := 300_000

  const CONNECT_ATTEMPT_DELAY: nat := 250

  const U32_MAX: nat := 0xFFFF_FFFF
  const USIZE_COUNT: nat := 0x1_0000_0000_0000_0000

  function Min(a: int, b: int): int {
    if a <= b then a else b
  }

  function Max(a: int, b: int): int {
    if a >= b then a else b
  }
}
