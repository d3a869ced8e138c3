/** `rateLimit(maxRequests, windowMs)`: an in-memory sliding-window limiter.
    Each limiter instance keeps a map from client identity to the number of
    requests seen since that client's first request of the current window.
    The clock is a parameter (`now`, integer milliseconds). */
module RateLimit {
  import opened Js

  /** The limits `rateLimit()` uses when called without arguments. */
  const DefaultMaxRequests: int := 15000
  const DefaultWindowMs: int := 15 * 60 * 1000

  const MsgTooManyRequests: string := "Muitas requisições. Tente novamente mais tarde"

  /** A client's key in the map: a string, or `undefined`, which is itself a
      usable map key. */
  type ClientId = JsValue

  /** `req.ip || req.connection?.remoteAddress`: the address the transport
      reports when it is non-empty, otherwise the socket's address. */
  function ClientIdOf(ip: JsValue, remoteAddress: JsValue): (r: ClientId)
    ensures r == ip || r == remoteAddress
    ensures Truthy(ip) ==> r == ip
    ensures !Truthy(ip) ==> r == remoteAddress
  {
    Or(ip, remoteAddress)
  }

  datatype Entry = Entry(count: int, firstRequest: int)

  datatype Decision = Allow | Deny(retryAfter: int)

  /** `Math.ceil(x / 1000)` for an integer `x`. */
  function CeilDiv1000(x: int): (r: int)
    ensures (r - 1) * 1000 < x <= r * 1000
  {
    -((-x) / 1000)
  }

  /** The largest count an entry can reach: `maxRequests`, except that a
      fresh entry always starts at 1. */
  function CountCap(maxRequests: int): int {
    if maxRequests < 1 then 1 else maxRequests
  }

  predicate Expired(windowMs: int, now: int, e: Entry) {
    now - e.firstRequest > windowMs
  }

  /** The map after the sweep: the expired entries deleted, the others as
      they were. Every entry left is within its window and is the entry it
      was, and every live entry survives. */
  function Swept(m: map<ClientId, Entry>, windowMs: int, now: int): (r: map<ClientId, Entry>)
    ensures forall k :: k in r ==> k in m && r[k] == m[k] && now - m[k].firstRequest <= windowMs
    ensures forall k :: k in m && now - m[k].firstRequest <= windowMs ==> k in r
  {
    map k | k in m && !Expired(windowMs, now, m[k]) :: m[k]
  }

  /** One request of client `c` at time `now`: the decision and the map left
      behind. The client always has an entry afterwards, no other key is
      added, and a denial changes nothing but the sweep. */
  function Step(maxRequests: int, windowMs: int, m: map<ClientId, Entry>, c: ClientId, now: int)
    : (r: (Decision, map<ClientId, Entry>))
    ensures c in r.1
    ensures r.1.Keys <= m.Keys + {c}
    ensures r.0.Deny? ==> r.1 == Swept(m, windowMs, now)
  {
    var live := Swept(m, windowMs, now);
    if c !in live then (Allow, live[c := Entry(1, now)])
    else
      var e := live[c];
      if Expired(windowMs, now, e) then (Allow, live[c := Entry(1, now)])
      else if e.count >= maxRequests then (Deny(CeilDiv1000(windowMs - (now - e.firstRequest))), live)
      else (Allow, live[c := Entry(e.count + 1, e.firstRequest)])
  }

  /** The response the middleware gives for a decision: `next()` for an
      allowed request, and otherwise 429 with the seconds to wait. */
  function DecisionOutcome(d: Decision): (r: Outcome)
    ensures r == Next <==> d == Allow
    ensures r != Next ==> r == Respond(429, MsgTooManyRequests, RetryAfter(d.retryAfter))
  {
    match d
    case Allow => Next
    case Deny(retryAfter) => Respond(429, MsgTooManyRequests, RetryAfter(retryAfter))
  }

  /** Every stored count lies between 1 and the cap. */
  ghost predicate Bounded(m: map<ClientId, Entry>, maxRequests: int) {
    forall k :: k in m ==> 1 <= m[k].count <= CountCap(maxRequests)
  }

  /** The reset branch of the source can never be taken: an entry found
      after the sweep is never expired. */
  lemma ResetBranchUnreachable(m: map<ClientId, Entry>, windowMs: int, now: int, c: ClientId)
    requires c in Swept(m, windowMs, now)
    ensures !Expired(windowMs, now, Swept(m, windowMs, now)[c])
  {
  }

  /** A client with no live entry is always let through and starts a new
      window with count 1, whatever `maxRequests` is, even 0. */
  lemma NewClientAllowed(maxRequests: int, windowMs: int, m: map<ClientId, Entry>, c: ClientId, now: int)
    requires c !in m || Expired(windowMs, now, m[c])
    ensures Step(maxRequests, windowMs, m, c, now).0 == Allow
    ensures Step(maxRequests, windowMs, m, c, now).1[c] == Entry(1, now)
  {
  }

  /** A repeat request within the window and under the limit is allowed and
      counted: the entry keeps its window start and its count goes up by
      one. */
  lemma AllowedRepeatIncrements(maxRequests: int, windowMs: int, m: map<ClientId, Entry>, c: ClientId, now: int)
    requires c in m && !Expired(windowMs, now, m[c]) && m[c].count < maxRequests
    ensures Step(maxRequests, windowMs, m, c, now)
         == (Allow, Swept(m, windowMs, now)[c := Entry(m[c].count + 1, m[c].firstRequest)])
  {
  }

  /** A denied request leaves the client's entry as it was and reports the
      seconds left in its window, rounded up, which are never negative. */
  lemma DenyKeepsEntry(maxRequests: int, windowMs: int, m: map<ClientId, Entry>, c: ClientId, now: int)
    requires Step(maxRequests, windowMs, m, c, now).0.Deny?
    ensures c in m && Step(maxRequests, windowMs, m, c, now).1[c] == m[c]
    ensures m[c].count >= maxRequests
    ensures Step(maxRequests, windowMs, m, c, now).0.retryAfter
         == CeilDiv1000(windowMs - (now - m[c].firstRequest))
    ensures Step(maxRequests, windowMs, m, c, now).0.retryAfter >= 0
  {
  }

  /** A request is denied exactly when the client's live entry has reached
      `maxRequests`. */
  lemma DenyIff(maxRequests: int, windowMs: int, m: map<ClientId, Entry>, c: ClientId, now: int)
    ensures Step(maxRequests, windowMs, m, c, now).0.Deny?
      <==> c in m && !Expired(windowMs, now, m[c]) && m[c].count >= maxRequests
  {
  }

  /** Counts never leave the range 1..CountCap(maxRequests). */
  lemma StepKeepsBounded(maxRequests: int, windowMs: int, m: map<ClientId, Entry>, c: ClientId, now: int)
    requires Bounded(m, maxRequests)
    ensures Bounded(Step(maxRequests, windowMs, m, c, now).1, maxRequests)
  {
    var m' := Step(maxRequests, windowMs, m, c, now).1;
    forall k | k in m' ensures 1 <= m'[k].count <= CountCap(maxRequests) {
      if k != c {
        assert k in m;
      }
    }
  }

  /** Other clients' entries are only ever deleted (when expired), never
      modified or created. */
  lemma OtherClientsUntouched(maxRequests: int, windowMs: int, m: map<ClientId, Entry>, c: ClientId, now: int, k: ClientId)
    requires k != c
    ensures var m' := Step(maxRequests, windowMs, m, c, now).1;
      && (k in m' <==> k in m && !Expired(windowMs, now, m[k]))
      && (k in m' ==> m'[k] == m[k])
  {
  }

  /** Isolation: a client's decision and its new entry depend only on its own
      entry, never on other clients' entries. */
  lemma DecisionDependsOnOwnEntry(maxRequests: int, windowMs: int, m1: map<ClientId, Entry>,
                                  m2: map<ClientId, Entry>, c: ClientId, now: int)
    requires (c in m1 <==> c in m2) && (c in m1 ==> m1[c] == m2[c])
    ensures Step(maxRequests, windowMs, m1, c, now).0 == Step(maxRequests, windowMs, m2, c, now).0
    ensures Step(maxRequests, windowMs, m1, c, now).1[c] == Step(maxRequests, windowMs, m2, c, now).1[c]
  {
    assert c in Swept(m1, windowMs, now) <==> c in Swept(m2, windowMs, now);
  }

  /** With `maxRequests = 3`, four requests of a new client inside one window
      are allowed, allowed, allowed and denied; a fifth request once the
      window has passed is allowed again and restarts the count at 1. */
  lemma FourthRequestDenied(windowMs: int, m: map<ClientId, Entry>, c: ClientId,
                            t0: int, t1: int, t2: int, t3: int, t4: int)
    requires c !in m
    requires t0 <= t1 <= t2 <= t3 && t3 - t0 <= windowMs && t4 - t0 > windowMs
    ensures var s0 := Step(3, windowMs, m, c, t0);
      var s1 := Step(3, windowMs, s0.1, c, t1);
      var s2 := Step(3, windowMs, s1.1, c, t2);
      var s3 := Step(3, windowMs, s2.1, c, t3);
      var s4 := Step(3, windowMs, s3.1, c, t4);
      && s0.0 == Allow && s1.0 == Allow && s2.0 == Allow && s3.0.Deny?
      && s3.1[c] == Entry(3, t0)
      && s4.0 == Allow && s4.1[c] == Entry(1, t4)
  {
    var s0 := Step(3, windowMs, m, c, t0);
    assert s0.1[c] == Entry(1, t0);
    var s1 := Step(3, windowMs, s0.1, c, t1);
    assert s1.0 == Allow && s1.1[c] == Entry(2, t0);
    var s2 := Step(3, windowMs, s1.1, c, t2);
    assert s2.0 == Allow && s2.1[c] == Entry(3, t0);
    var s3 := Step(3, windowMs, s2.1, c, t3);
    assert s3.0.Deny? && s3.1[c] == Entry(3, t0);
    assert c !in Swept(s3.1, windowMs, t4);
  }

  /** One limiter instance: the value returned by `rateLimit(...)` together
      with the map its closure keeps. */
  class RateLimiter {
    const maxRequests: int
    const windowMs: int
    var requests: map<ClientId, Entry>

    ghost predicate Valid()
      reads this
    {
      Bounded(requests, maxRequests)
    }

    constructor (maxRequests: int := DefaultMaxRequests, windowMs: int := DefaultWindowMs)
      ensures this.maxRequests == maxRequests && this.windowMs == windowMs
      ensures requests == map[] && Valid()
    {
      this.maxRequests := maxRequests;
      this.windowMs := windowMs;
      requests := map[];
    }

    /** The sweep loop: delete every entry whose window has passed. */
    method Sweep(now: int)
      modifies this
      ensures requests == Swept(old(requests), windowMs, now)
    {
      ghost var original := requests;
      var pending := requests.Keys;
      while pending != {}
        invariant pending <= requests.Keys <= original.Keys
        invariant forall k :: k in original ==>
          (k in requests <==> k in pending || !Expired(windowMs, now, original[k]))
        invariant forall k :: k in requests ==> requests[k] == original[k]
        decreases pending
      {
        var key :| key in pending;
        if now - requests[key].firstRequest > windowMs {
          requests := requests - {key};
        }
        pending := pending - {key};
      }
      assert requests == Swept(original, windowMs, now);
    }

    /** The middleware for one request from `ip` / `remoteAddress` at time
        `now`. */
    method Handle(ip: JsValue, remoteAddress: JsValue, now: int) returns (outcome: Outcome)
      requires Valid()
      modifies this
      ensures Valid()
      ensures var s := Step(maxRequests, windowMs, old(requests), ClientIdOf(ip, remoteAddress), now);
        outcome == DecisionOutcome(s.0) && requests == s.1
    {
      ghost var before := requests;
      var clientId := ClientIdOf(ip, remoteAddress);
      Sweep(now);
      if clientId !in requests {
        requests := requests[clientId := Entry(1, now)];
        StepKeepsBounded(maxRequests, windowMs, before, clientId, now);
        return Next;
      }
      var entry := requests[clientId];
      if now - entry.firstRequest > windowMs {
        // The source resets the window here; the sweep makes it unreachable.
        assert false;
      }
      if entry.count >= maxRequests {
        return Respond(429, MsgTooManyRequests, RetryAfter(CeilDiv1000(windowMs - (now - entry.firstRequest))));
      }
      requests := requests[clientId := Entry(entry.count + 1, entry.firstRequest)];
      StepKeepsBounded(maxRequests, windowMs, before, clientId, now);
      return Next;
    }
  }
}
