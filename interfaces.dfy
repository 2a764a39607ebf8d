/**
 * Record shapes shared by the rate limiter and the click ledger
 * (`RateLimitData` and `ClickInfo` of src/interfaces/interface.ts).
 */
module Interfaces {

  /** One client's fixed window: how many requests it has made since `lastRequestAt` (ms). */
  datatype RateLimitData = RateLimitData(count: int, lastRequestAt: int)

  /** One click event of the `Clicks` log: who clicked, at which server time (ms since the epoch). */
  datatype ClickInfo = ClickInfo(timestamp: int, userId: string)
}
