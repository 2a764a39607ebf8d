/**
 * The fixed-window rate limiter of src/rate-limit.ts and the one-branch
 * middleware of src/middleware.ts that puts it in front of the click endpoint.
 *
 * The module-level table `rateLimitStore` is the field `store` of a
 * `Limiter` object; `Check` is `rateLimit`, with `Date.now()` passed in as
 * `now` (milliseconds).
 */
module RateLimit {
  import opened Wrappers
  import opened Interfaces

  /** Length of one window in milliseconds (src/rate-limit.ts:19). */
  const TimeFrame: int := 60000
  /** Requests admitted per window (src/rate-limit.ts:20). */
  const RequestLimit: int := 150
  /**
   * The figure the user-facing toast announces ("Only 15 clicks are allowed
   * every minute", src/pages/index.tsx:49). It is NOT what the limiter
   * enforces; see `AdvertisedLimitIsNotEnforced`.
   */
  const AdvertisedLimit: int := 15
  const LimitMessage: string := "Rate Limit Exceeded!"
  /**
   * When neither address header is present the key expression evaluates to
   * `undefined`, and indexing a JavaScript object with it uses the property
   * name "undefined": all such clients share this one entry.
   */
  const UndefinedKey: string := "undefined"

  /** Request headers, by lower-case name. */
  type Headers = map<string, string>

  /** Table from client key to that client's window. */
  type Table = map<string, RateLimitData>

  /** The answer of one check (`{ success, message? }`). */
  datatype Verdict = Admitted | Rejected(message: string)

  /** A verdict together with the table it leaves behind. */
  datatype Outcome = Outcome(verdict: Verdict, store: Table)

  function Header(h: Headers, name: string): Option<string>
  {
    if name in h then Some(h[name]) else None
  }

  /** `s.split(',')[0]`: the text before the first comma, or all of `s` when it has none. */
  function FirstEntry(s: string): (r: string)
    ensures r <= s
    ensures ',' !in r
    ensures r == s || s[|r|] == ','
  {
    if s == [] || s[0] == ',' then [] else [s[0]] + FirstEntry(s[1..])
  }

  /**
   * The client key of src/rate-limit.ts:7: `x-real-ip` when it is present and
   * non-empty, else the first entry of `x-forwarded-for` (untrimmed), else
   * the degenerate key "undefined".
   */
  function ClientKey(h: Headers): (k: string)
    ensures "x-real-ip" in h && h["x-real-ip"] != [] ==> k == h["x-real-ip"]
    ensures ("x-real-ip" !in h || h["x-real-ip"] == []) && "x-forwarded-for" in h ==>
              k <= h["x-forwarded-for"] && ',' !in k &&
              (k == h["x-forwarded-for"] || h["x-forwarded-for"][|k|] == ',')
    ensures ("x-real-ip" !in h || h["x-real-ip"] == []) && "x-forwarded-for" !in h ==> k == UndefinedKey
  {
    if Header(h, "x-real-ip").GetOr([]) != [] then h["x-real-ip"]
    else
      match Header(h, "x-forwarded-for")
      case Some(chain) => FirstEntry(chain)
      case None => UndefinedKey
  }

  /** Every stored window has made between 1 and `RequestLimit` requests. */
  ghost predicate WellFormed(store: Table)
  {
    forall k :: k in store ==> 1 <= store[k].count <= RequestLimit
  }

  /**
   * One call of `rateLimit` for `key` at time `now` (src/rate-limit.ts:10-35),
   * as a function of the table before the call.
   */
  function Step(store: Table, key: string, now: int): (r: Outcome)
    // only the entry of `key` may change, and it exists afterwards
    ensures r.store.Keys == store.Keys + {key}
    ensures forall k :: k in store && k != key ==> r.store[k] == store[k]
    // an unknown key, or a window older than TimeFrame, opens a new window
    ensures key !in store || now - store[key].lastRequestAt > TimeFrame ==>
              r.verdict == Admitted && r.store[key] == RateLimitData(1, now)
    // at exactly TimeFrame the window is still open
    ensures key in store && now - store[key].lastRequestAt <= TimeFrame && store[key].count < RequestLimit ==>
              r.verdict == Admitted &&
              r.store[key] == RateLimitData(store[key].count + 1, store[key].lastRequestAt)
    ensures key in store && now - store[key].lastRequestAt <= TimeFrame && store[key].count >= RequestLimit ==>
              r.verdict == Rejected(LimitMessage) && r.store == store
    ensures WellFormed(store) ==> WellFormed(r.store)
  {
    if key !in store then
      Outcome(Admitted, store[key := RateLimitData(1, now)])
    else if now - store[key].lastRequestAt > TimeFrame then
      Outcome(Admitted, store[key := RateLimitData(1, now)])
    else if store[key].count < RequestLimit then
      Outcome(Admitted, store[key := store[key].(count := store[key].count + 1)])
    else
      Outcome(Rejected(LimitMessage), store)
  }

  /** Successive calls for one key at the times in `times`: one admitted-flag per call, and the final table. */
  function Run(store: Table, key: string, times: seq<int>): (r: (seq<bool>, Table))
    ensures |r.0| == |times|
    decreases |times|
  {
    if times == [] then ([], store)
    else
      var o := Step(store, key, times[0]);
      var rest := Run(o.store, key, times[1..]);
      ([o.verdict.Admitted?] + rest.0, rest.1)
  }

  /** How many calls of a run were admitted. */
  function Admissions(outs: seq<bool>): nat
  {
    if outs == [] then 0 else (if outs[0] then 1 else 0) + Admissions(outs[1..])
  }

  function Min(a: int, b: int): int { if a <= b then a else b }

  /**
   * Inside an open window that has already admitted `c` requests, every
   * later call that is still within TimeFrame of the window start is
   * admitted exactly while the count is below the limit: the first
   * `RequestLimit - c` calls pass and every later one is rejected. The window
   * start never moves and no other key changes.
   */
  lemma {:induction false} RunInsideWindow(store: Table, key: string, times: seq<int>)
    requires key in store && 1 <= store[key].count <= RequestLimit
    requires forall i :: 0 <= i < |times| ==> times[i] - store[key].lastRequestAt <= TimeFrame
    ensures var r := Run(store, key, times);
            && (forall i :: 0 <= i < |times| ==> r.0[i] == (i < RequestLimit - store[key].count))
            && key in r.1
            && r.1[key] == RateLimitData(store[key].count + Min(|times|, RequestLimit - store[key].count),
                                         store[key].lastRequestAt)
            && r.1 - {key} == store - {key}
    decreases |times|
  {
    if times != [] {
      var o := Step(store, key, times[0]);
      RunInsideWindow(o.store, key, times[1..]);
      assert o.store - {key} == store - {key};
      forall i | 0 < i < |times|
        ensures times[1..][i - 1] == times[i]
      {
      }
    }
  }

  /**
   * For a key with no entry, or whose window has run out by the first call
   * (both start a fresh window), a run of calls all within TimeFrame of the first
   * one admits the first `RequestLimit` calls and rejects every later one, so
   * at most `RequestLimit` are admitted in total.
   */
  lemma {:induction false} RunFromFirstRequest(store: Table, key: string, times: seq<int>)
    requires times != [] && (key !in store || times[0] - store[key].lastRequestAt > TimeFrame)
    requires forall i :: 0 <= i < |times| ==> times[i] - times[0] <= TimeFrame
    ensures var outs := Run(store, key, times).0;
            && (forall i :: 0 <= i < |times| ==> outs[i] == (i < RequestLimit))
            && Admissions(outs) == Min(|times|, RequestLimit)
  {
    var o := Step(store, key, times[0]);
    var rest := times[1..];
    forall i | 0 <= i < |rest| ensures rest[i] - o.store[key].lastRequestAt <= TimeFrame {
      assert rest[i] == times[i + 1];
    }
    RunInsideWindow(o.store, key, rest);
    var outs := Run(store, key, times).0;
    assert outs == [true] + Run(o.store, key, rest).0;
    AdmissionsOfPrefix(outs, RequestLimit);
  }

  /** A run whose i-th call is admitted exactly when i < n admits min(length, n) calls. */
  lemma {:induction false} AdmissionsOfPrefix(outs: seq<bool>, n: int)
    requires forall i :: 0 <= i < |outs| ==> outs[i] == (i < n)
    ensures Admissions(outs) == if n <= 0 then 0 else Min(|outs|, n)
  {
    if outs != [] {
      var tail := outs[1..];
      forall i | 0 <= i < |tail| ensures tail[i] == (i < n - 1) {
        assert tail[i] == outs[i + 1];
      }
      AdmissionsOfPrefix(tail, n - 1);
    }
  }

  /**
   * The toast's figure understates the gate: in a fresh window the call right
   * after the advertised fifteen is still admitted.
   */
  lemma AdvertisedLimitIsNotEnforced(store: Table, key: string, times: seq<int>)
    requires key !in store && |times| == AdvertisedLimit + 1
    requires forall i :: 0 <= i < |times| ==> times[i] - times[0] <= TimeFrame
    ensures Run(store, key, times).0[AdvertisedLimit]
  {
    RunFromFirstRequest(store, key, times);
  }

  /** The process-wide table and the `rateLimit` function that updates it. */
  class Limiter {
    var store: Table

    ghost predicate Valid()
      reads this
    {
      WellFormed(store)
    }

    constructor ()
      ensures Valid() && store == map[]
    {
      store := map[];
    }

    /** `rateLimit(request)` at time `now`: derive the key, then admit or reject, updating the table in place. */
    method Check(headers: Headers, now: int) returns (v: Verdict)
      requires Valid()
      modifies this
      ensures Valid()
      ensures Outcome(v, store) == Step(old(store), ClientKey(headers), now)
    {
      var ip := ClientKey(headers);
      if ip !in store {
        store := store[ip := RateLimitData(1, now)];
        return Admitted;
      }
      var timeDifference := now - store[ip].lastRequestAt;
      if timeDifference > TimeFrame {
        store := store[ip := RateLimitData(1, now)];
        return Admitted;
      }
      if store[ip].count < RequestLimit {
        store := store[ip := store[ip].(count := store[ip].count + 1)];
        return Admitted;
      }
      return Rejected(LimitMessage);
    }
  }

  /** What the middleware does with a request: pass it on, or answer 429 itself. */
  datatype GateResponse = Next | TooManyRequests(status: int, message: string)

  /** src/middleware.ts:11-17: consult the limiter; on rejection answer 429 without reaching the handler. */
  method Middleware(limiter: Limiter, headers: Headers, now: int) returns (r: GateResponse)
    requires limiter.Valid()
    modifies limiter
    ensures limiter.Valid()
    ensures var o := Step(old(limiter.store), ClientKey(headers), now);
            && limiter.store == o.store
            && (r == Next <==> o.verdict.Admitted?)
            && (r != Next ==> r == TooManyRequests(429, "Rate limit exceeded"))
  {
    var status := limiter.Check(headers, now);
    if !status.Admitted? {
      return TooManyRequests(429, "Rate limit exceeded");
    }
    return Next;
  }
}
