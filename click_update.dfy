/**
 * The click endpoint of src/pages/api/clicks/update.ts: the status decision
 * (verb, then Bearer token, then verified uid) and the three-write
 * transaction that records one click.
 *
 * Token verification (`verifyIdToken`, together with the `initAdmin` call
 * before it) is an opaque function passed in as `verify`; the server timestamp
 * is the parameter `ts`; a store-side failure of the transaction that is not
 * caused by a missing document (contention, network) is the flag `fault`.
 */
module ClickUpdate {
  import opened Wrappers
  import opened Interfaces

  const Bearer: string := "Bearer "

  const AuthErrorMessage: string := "Authentication token required"
  const UnauthorizedMessage: string := "Unauthorized!"
  const SuccessMessage: string := "Clicks updated successfully!"
  const FailMessage: string := "Failed to update clicks"
  const MethodNotAllowedMessage: string := "Method Not Allowed!"

  // ---------------------------------------------------------------------------
  // Token extraction: `req.headers.authorization?.split('Bearer ')[1]`

  /** `pat` occurs in `s` starting at position i. */
  predicate OccursAt(s: string, pat: string, i: int)
  {
    0 <= i && i + |pat| <= |s| && s[i..i + |pat|] == pat
  }

  /** "Bearer " occurs nowhere in `t`. */
  predicate NoBearer(t: string)
  {
    forall j :: 0 <= j <= |t| ==> !OccursAt(t, Bearer, j)
  }

  /** The first position at or after `from` where `pat` occurs, if any. */
  function FindFrom(s: string, pat: string, from: nat): (r: Option<nat>)
    ensures r.Some? ==> from <= r.value && OccursAt(s, pat, r.value)
    ensures forall j :: from <= j && (r.None? || j < r.value) ==> !OccursAt(s, pat, j)
    decreases |s| - from
  {
    if from + |pat| > |s| then None
    else if s[from..from + |pat|] == pat then Some(from)
    else FindFrom(s, pat, from + 1)
  }

  /**
   * `split('Bearer ')[1]`: the text after the first "Bearer " up to the next
   * "Bearer " or the end; absent when the header has no "Bearer " at all.
   * "Bearer " need not open the header.
   */
  function BearerToken(header: string): (t: Option<string>)
    ensures t.None? <==> NoBearer(header)
    ensures t.Some? ==> NoBearer(t.value)
  {
    match FindFrom(header, Bearer, 0)
    case None => None
    case Some(i) =>
      var start := i + |Bearer|;
      match FindFrom(header, Bearer, start)
      case None =>
        NoBearerBetween(header, start, |header|);
        assert header[start..] == header[start..|header|];
        Some(header[start..])
      case Some(k) =>
        NoBearerBetween(header, start, k);
        Some(header[start..k])
  }

  /** A stretch of `s` that holds no occurrence of "Bearer " is, as a string of its own, free of it. */
  lemma NoBearerBetween(s: string, lo: nat, hi: nat)
    requires lo <= hi <= |s|
    requires forall j :: lo <= j && j + |Bearer| <= hi ==> !OccursAt(s, Bearer, j)
    ensures NoBearer(s[lo..hi])
  {
    var t := s[lo..hi];
    forall j | 0 <= j <= |t| ensures !OccursAt(t, Bearer, j) {
      if j + |Bearer| <= |t| {
        var m := lo + j;
        assert m + |Bearer| <= hi;
        assert !OccursAt(s, Bearer, m);
        assert s[m..m + |Bearer|] == t[j..j + |Bearer|];
      }
    }
  }

  /** Conversely, a copy of a string free of "Bearer " puts no occurrence inside its stretch of `s`. */
  lemma NoBearerInside(s: string, lo: nat, t: string)
    requires lo + |t| <= |s| && s[lo..lo + |t|] == t && NoBearer(t)
    ensures forall j :: lo <= j && j + |Bearer| <= lo + |t| ==> !OccursAt(s, Bearer, j)
  {
    forall j | lo <= j && j + |Bearer| <= lo + |t| ensures !OccursAt(s, Bearer, j) {
      var u := j - lo;
      assert !OccursAt(t, Bearer, u);
      var w := s[lo..lo + |t|];
      assert t[u..u + |Bearer|] == w[u..u + |Bearer|];
      assert w[u..u + |Bearer|] == s[j..j + |Bearer|];
    }
  }

  /**
   * No proper suffix of "Bearer " is also a prefix of it, so occurrences never
   * overlap: if "Bearer " sits at k and no occurrence lies wholly inside
   * [from, k), then the search from `from` finds k.
   */
  lemma FindsBearerAt(s: string, from: nat, k: nat)
    requires from <= k && OccursAt(s, Bearer, k)
    requires forall j :: from <= j && j + |Bearer| <= k ==> !OccursAt(s, Bearer, j)
    ensures FindFrom(s, Bearer, from) == Some(k)
  {
    forall j | from <= j < k ensures !OccursAt(s, Bearer, j) {
      if k < j + |Bearer| <= |s| {
        // an occurrence at j would put a 'B' at k - j inside "Bearer ", which has none after position 0
        assert s[k] == s[k..k + |Bearer|][0] == 'B';
        assert s[j..j + |Bearer|][k - j] == s[k];
        assert Bearer[k - j] != 'B';
      }
    }
  }

  /**
   * The token is what lies between the first "Bearer " and the next one,
   * whatever precedes the first: `pre + "Bearer " + t + "Bearer " + rest`
   * yields `t` when neither `pre` nor `t` contains "Bearer ".
   */
  lemma TokenBetweenBearers(pre: string, t: string, rest: string)
    requires NoBearer(pre) && NoBearer(t)
    ensures BearerToken(pre + Bearer + t + Bearer + rest) == Some(t)
  {
    var s := pre + Bearer + t + Bearer + rest;
    var start := |pre| + |Bearer|;
    var k := start + |t|;
    assert s[..|pre|] == pre && s[|pre|..start] == Bearer;
    NoBearerInside(s, 0, pre);
    FindsBearerAt(s, 0, |pre|);
    assert s[start..k] == t && s[k..k + |Bearer|] == Bearer;
    NoBearerInside(s, start, t);
    FindsBearerAt(s, start, k);
  }

  /**
   * With no second "Bearer ", the token runs to the end of the header:
   * `"Bearer " + t` yields `t`, and so does `"Token xBearer " + t`, the case
   * section 2.1 of RFC 6750 would reject.
   */
  lemma TokenAfterFirstBearer(pre: string, t: string)
    requires NoBearer(pre) && NoBearer(t)
    ensures BearerToken(pre + Bearer + t) == Some(t)
  {
    var s := pre + Bearer + t;
    var start := |pre| + |Bearer|;
    assert s[..|pre|] == pre && s[|pre|..start] == Bearer;
    NoBearerInside(s, 0, pre);
    FindsBearerAt(s, 0, |pre|);
    assert s[start..start + |t|] == t;
    NoBearerInside(s, start, t);
    assert FindFrom(s, Bearer, start).None?;
    assert s[start..] == t;
  }

  // ---------------------------------------------------------------------------
  // The status decision

  /** What the opaque verifier does with a token: yield a decoded uid (possibly empty), or throw. */
  datatype Verification = Decoded(uid: string) | Threw

  /** A response: status, body message, and the `Allow` header when one is set. */
  datatype Response = Response(status: int, message: string, allow: Option<seq<string>>)

  /** Before touching the store the handler either answers at once or goes on to record a click for a uid. */
  datatype Decision = Answer(response: Response) | Record(uid: string)

  function Unauthenticated(): Response { Response(401, AuthErrorMessage, None) }
  function Unauthorized(): Response { Response(401, UnauthorizedMessage, None) }
  function Failed(): Response { Response(500, FailMessage, None) }
  function Succeeded(): Response { Response(200, SuccessMessage, None) }
  function MethodNotAllowed(verb: string): Response
  {
    Response(405, MethodNotAllowedMessage + " " + verb, Some(["POST"]))
  }

  /** The token the handler goes on with: present and non-empty, else nothing. */
  function UsableToken(authorization: Option<string>): (t: Option<string>)
    // `!token`: a missing header, a header without "Bearer ", and an empty token all stop here
    ensures t.Some? <==> authorization.Some? && BearerToken(authorization.value).Some? &&
                         BearerToken(authorization.value).value != []
    ensures t.Some? ==> t == BearerToken(authorization.value)
    ensures t.Some? ==> t.value != [] && NoBearer(t.value)
  {
    match authorization
    case None => None
    case Some(header) =>
      match BearerToken(header)
      case Some(token) => if token != [] then Some(token) else None
      case None => None
  }

  /**
   * src/pages/api/clicks/update.ts:23-37 and 54-58: the method first, then the
   * token, then the verifier, then the uid.
   */
  function Decide(verb: string, authorization: Option<string>, verify: string -> Verification): (d: Decision)
    // any other verb: 405 with `Allow: POST`, nothing else consulted
    ensures verb != "POST" ==> d == Answer(MethodNotAllowed(verb))
    // no usable token: 401 before the verifier is called
    ensures verb == "POST" && UsableToken(authorization).None? ==> d == Answer(Unauthenticated())
    // a verifier that throws lands in the catch block: 500, not 401
    ensures verb == "POST" && UsableToken(authorization).Some? && verify(UsableToken(authorization).value).Threw? ==>
              d == Answer(Failed())
    ensures verb == "POST" && UsableToken(authorization).Some? && verify(UsableToken(authorization).value) == Decoded("") ==>
              d == Answer(Unauthorized())
    ensures d.Record? <==> verb == "POST" && UsableToken(authorization).Some? &&
                           verify(UsableToken(authorization).value).Decoded? &&
                           verify(UsableToken(authorization).value).uid != ""
    ensures d.Record? ==> d.uid == verify(UsableToken(authorization).value).uid
  {
    if verb != "POST" then Answer(MethodNotAllowed(verb))
    else
      match UsableToken(authorization)
      case None => Answer(Unauthenticated())
      case Some(token) =>
        match verify(token)
        case Threw => Answer(Failed())
        case Decoded(uid) => if uid != "" then Record(uid) else Answer(Unauthorized())
  }

  /** Without a usable token the decision does not depend on the verifier at all: it is never called. */
  lemma NoTokenNoVerification(verb: string, authorization: Option<string>, v1: string -> Verification, v2: string -> Verification)
    requires UsableToken(authorization).None?
    ensures Decide(verb, authorization, v1) == Decide(verb, authorization, v2)
  {
  }

  // ---------------------------------------------------------------------------
  // The store and the transaction

  /** The three records: click count per user document, the global counter document (if it exists), the click log. */
  datatype Store = Store(users: map<string, nat>, total: Option<nat>, events: seq<ClickInfo>)

  /** Number of events in the log for user `uid`. */
  function EventsOf(events: seq<ClickInfo>, uid: string): nat
  {
    if events == [] then 0
    else EventsOf(events[..|events| - 1], uid) + (if events[|events| - 1].userId == uid then 1 else 0)
  }

  /** Counters agree with the log they cache: the global counter counts all events, each user's counter counts theirs. */
  ghost predicate Consistent(s: Store)
  {
    && s.total == Some(|s.events|)
    && forall u :: u in s.users ==> s.users[u] == EventsOf(s.events, u)
  }

  /**
   * The transaction of src/pages/api/clicks/update.ts:42-49 on the store
   * before it: both `update`s need their document to exist, and the store
   * may fail on its own; on success all three writes take effect, otherwise
   * none does.
   */
  function Transact(s: Store, uid: string, ts: int, fault: bool): (r: Option<Store>)
    ensures r.Some? <==> !fault && uid in s.users && s.total.Some?
    ensures r.Some? ==>
              && r.value.users == s.users[uid := s.users[uid] + 1]
              && r.value.total == Some(s.total.value + 1)
              && r.value.events == s.events + [ClickInfo(ts, uid)]
  {
    if fault || uid !in s.users || s.total.None? then None
    else Some(Store(s.users[uid := s.users[uid] + 1], Some(s.total.value + 1), s.events + [ClickInfo(ts, uid)]))
  }

  /**
   * A committed click moves the user's counter, the global counter and that
   * user's event count by exactly one and every other user's event count by
   * none, so a store whose counters agreed with its log still agrees.
   */
  lemma TransactPreservesConsistency(s: Store, uid: string, ts: int, fault: bool)
    requires Consistent(s)
    ensures Transact(s, uid, ts, fault).Some? ==>
              && Consistent(Transact(s, uid, ts, fault).value)
              && EventsOf(Transact(s, uid, ts, fault).value.events, uid) == EventsOf(s.events, uid) + 1
              && forall u :: u != uid ==> EventsOf(Transact(s, uid, ts, fault).value.events, u) == EventsOf(s.events, u)
  {
    var r := Transact(s, uid, ts, fault);
    if r.Some? {
      var evs := s.events + [ClickInfo(ts, uid)];
      assert evs[..|evs| - 1] == s.events;
    }
  }

  /** The whole handler on a store: the response it sends and the store it leaves. */
  function Handle(s: Store, verb: string, authorization: Option<string>, verify: string -> Verification,
                  ts: int, fault: bool): (r: (Response, Store))
    ensures r.0.status == 200 <==> r.1 != s
    ensures r.0.status == 200 ==> r.0 == Succeeded()
    ensures r.0.status != 200 ==> r.1 == s
    // any other verb is refused before anything else is looked at
    ensures verb != "POST" ==> r == (MethodNotAllowed(verb), s)
    // a verified uid whose transaction does not commit: 500, nothing written
    ensures var d := Decide(verb, authorization, verify);
            d.Record? && Transact(s, d.uid, ts, fault).None? ==> r == (Failed(), s)
    // a committed transaction is answered 200 and leaves its store
    ensures var d := Decide(verb, authorization, verify);
            d.Record? && Transact(s, d.uid, ts, fault).Some? ==> r == (Succeeded(), Transact(s, d.uid, ts, fault).value)
    // the 401 and 500 answers of the decision are sent as they are, with nothing written
    ensures var d := Decide(verb, authorization, verify);
            d.Answer? ==> r == (d.response, s)
  {
    match Decide(verb, authorization, verify)
    case Answer(resp) => (resp, s)
    case Record(uid) =>
      match Transact(s, uid, ts, fault)
      case Some(s') =>
        assert |s'.events| > |s.events|;
        (Succeeded(), s')
      case None => (Failed(), s)
  }

  /** Every request keeps the counters consistent with the log. */
  lemma HandlePreservesConsistency(s: Store, verb: string, authorization: Option<string>,
                                   verify: string -> Verification, ts: int, fault: bool)
    requires Consistent(s)
    ensures Consistent(Handle(s, verb, authorization, verify, ts, fault).1)
  {
    var d := Decide(verb, authorization, verify);
    if d.Record? {
      TransactPreservesConsistency(s, d.uid, ts, fault);
    }
  }

  /** The store behind the handler: the `Users`, `TotalClicks/counter` and `Clicks` records. */
  class Database {
    var users: map<string, nat>
    var total: Option<nat>
    var events: seq<ClickInfo>

    function State(): Store
      reads this
    {
      Store(users, total, events)
    }

    constructor (users: map<string, nat>, total: Option<nat>, events: seq<ClickInfo>)
      ensures State() == Store(users, total, events)
    {
      this.users := users;
      this.total := total;
      this.events := events;
    }

    /** `db.runTransaction(...)`: all three writes commit, or the store is as before. */
    method RunTransaction(uid: string, ts: int, fault: bool) returns (committed: bool)
      modifies this
      ensures committed <==> !fault && uid in old(users) && old(total).Some?
      ensures committed ==>
                && users == old(users)[uid := old(users)[uid] + 1]
                && total == Some(old(total).value + 1)
                && events == old(events) + [ClickInfo(ts, uid)]
      ensures !committed ==> users == old(users) && total == old(total) && events == old(events)
      ensures Transact(old(State()), uid, ts, fault) == if committed then Some(State()) else None
    {
      if fault || uid !in users || total.None? {
        return false;
      }
      users := users[uid := users[uid] + 1];
      total := Some(total.value + 1);
      events := events + [ClickInfo(ts, uid)];
      return true;
    }
  }

  /** `handler(req, res)`: decide, then run the transaction when a uid was verified. */
  method Handler(db: Database, verb: string, authorization: Option<string>, verify: string -> Verification,
                 ts: int, fault: bool) returns (resp: Response)
    modifies db
    ensures (resp, db.State()) == Handle(old(db.State()), verb, authorization, verify, ts, fault)
  {
    var d := Decide(verb, authorization, verify);
    match d
    case Answer(r) =>
      resp := r;
    case Record(uid) =>
      var committed := db.RunTransaction(uid, ts, fault);
      resp := if committed then Succeeded() else Failed();
  }
}
