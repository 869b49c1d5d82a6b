/**
 * The HTTP layer of the service: the in-memory per-IP rate limiter (a
 * dictionary from client address to the times of its recent requests, in
 * seconds) and the `POST /triage` handler, which checks the rate limit first,
 * then rejects a blank description, then runs the triage.  The clock reading
 * is a parameter.
 */
module Api {
  import opened Wrappers
  import opened Text
  import opened Schemas
  import opened Llm
  import opened KbSearch
  import opened Agent

  /** At most this many requests per client ... */
  const RateLimitRequests: nat := 10
  /** ... within this many seconds. */
  const RateLimitWindow: real := 60.0

  /** `[t for t in ts if t > window_start]` */
  function Prune(ts: seq<real>, windowStart: real): (r: seq<real>)
    ensures |r| <= |ts|
  {
    if ts == [] then []
    else
      var last := ts[|ts| - 1];
      Prune(ts[..|ts| - 1], windowStart) + (if last > windowStart then [last] else [])
  }

  /** The number of times in `ts` after `windowStart`, counted from the front. */
  function CountAfter(ts: seq<real>, windowStart: real): nat {
    if ts == [] then 0
    else (if ts[0] > windowStart then 1 else 0) + CountAfter(ts[1..], windowStart)
  }

  /** The times a client has on record, or none for a client not seen before. */
  function History(table: map<string, seq<real>>, ip: string): seq<real> {
    if ip in table then table[ip] else []
  }

  /** What `is_rate_limited(ip)` at time `now` returns, and the table it leaves:
      the client's list is cut to the times inside the window, and `now` is
      recorded only when the request is let through. */
  function RateLimitStep(table: map<string, seq<real>>, ip: string, now: real): (bool, map<string, seq<real>>) {
    var recent := Prune(History(table, ip), now - RateLimitWindow);
    if |recent| >= RateLimitRequests then (true, table[ip := recent])
    else (false, table[ip := recent + [now]])
  }

  /** No client has more than `RATE_LIMIT_REQUESTS` times on record. */
  ghost predicate Bounded(table: map<string, seq<real>>) {
    forall ip :: ip in table ==> |table[ip]| <= RateLimitRequests
  }

  /** The module-level `rate_limiter` dictionary and `is_rate_limited`. */
  class RateLimiter {
    var table: map<string, seq<real>>

    ghost predicate Valid()
      reads this
    {
      Bounded(table)
    }

    constructor()
      ensures Valid() && table == map[]
    {
      table := map[];
    }

    /** `is_rate_limited(ip)` with `time.time()` read as `now`. */
    method IsRateLimited(ip: string, now: real) returns (limited: bool)
      requires Valid()
      modifies this
      ensures Valid()
      ensures (limited, table) == RateLimitStep(old(table), ip, now)
    {
      var windowStart := now - RateLimitWindow;
      if ip !in table {
        table := table[ip := []];
      }
      table := table[ip := Prune(table[ip], windowStart)];
      if |table[ip]| >= RateLimitRequests {
        return true;
      }
      var recent := table[ip];
      table := table[ip := recent + [now]];
      assert table == old(table)[ip := recent + [now]];
      return false;
    }
  }

  // ---------------------------------------------------------------------------
  // The handler

  const RateLimitDetail: string := "Rate limit exceeded. Max 10 requests per 60 seconds."
  const EmptyDetail: string := "description cannot be empty"

  /** The handler's outcome.  `InternalError` is the 500 answer to a triage
      result that the response model rejects (a category or severity outside
      the closed sets). */
  datatype Response =
    | TooManyRequests(detail: string)
    | BadRequest(detail: string)
    | InternalError
    | Ok(result: TriageResult)
  {
    function Status(): nat {
      match this
      case TooManyRequests(_) => 429
      case BadRequest(_) => 400
      case InternalError => 500
      case Ok(_) => 200
    }
  }

  /** `not description or not description.strip()` */
  predicate IsBlank(description: string) {
    Strip(description) == []
  }

  /** The answer once the rate-limit check has said `limited`, where
      `triaged` is what `triage_ticket` returns for the description (it is
      used only once both checks pass). */
  function Answer(limited: bool, description: string, triaged: TriageResult): Response {
    if limited then TooManyRequests(RateLimitDetail)
    else if IsBlank(description) then BadRequest(EmptyDetail)
    else if IsCategoryValue(triaged.category) && IsSeverityValue(triaged.severity) then Ok(triaged)
    else InternalError
  }

  /** What `POST /triage` answers and the rate-limit table it leaves: the
      check runs, and records the request when it lets it through, before
      anything else. */
  function Handle(table: map<string, seq<real>>, ip: string, now: real, description: string,
                  triaged: TriageResult): (Response, map<string, seq<real>>)
  {
    var step := RateLimitStep(table, ip, now);
    (Answer(step.0, description, triaged), step.1)
  }

  /** The `triage` endpoint for a request from `ip` arriving at time `now`. */
  method HandleTriage(limiter: RateLimiter, ip: string, now: real, description: string,
                      cfg: LlmConfig, service: nat -> Outcome, parse: string -> Option<Json>,
                      kb: seq<KBEntry>, sims: seq<real>, order: seq<nat>) returns (resp: Response)
    requires limiter.Valid() && |sims| == |kb| && IsArgsort(order, sims)
    modifies limiter
    ensures limiter.Valid()
    ensures (resp, limiter.table) ==
      Handle(old(limiter.table), ip, now, description, Triage(description, cfg, service, parse, kb, sims, order))
  {
    var limited := limiter.IsRateLimited(ip, now);
    if limited {
      return TooManyRequests(RateLimitDetail);
    }
    if IsBlank(description) {
      return BadRequest(EmptyDetail);
    }
    var r := TriageTicket(description, cfg, service, parse, kb, sims, order);
    if IsCategoryValue(r.category) && IsSeverityValue(r.severity) {
      return Ok(r);
    }
    return InternalError;
  }

  // ---------------------------------------------------------------------------
  // Properties of the rate limiter

  lemma {:induction false} PruneAppend(a: seq<real>, b: seq<real>, windowStart: real)
    ensures Prune(a + b, windowStart) == Prune(a, windowStart) + Prune(b, windowStart)
    decreases |b|
  {
    if b != [] {
      var b' := b[..|b| - 1];
      assert (a + b)[..|a + b| - 1] == a + b';
      PruneAppend(a, b', windowStart);
    } else {
      assert a + b == a;
    }
  }

  /** Pruning keeps exactly the times after the window start. */
  lemma {:induction false} PruneMembers(ts: seq<real>, windowStart: real)
    ensures forall t :: t in Prune(ts, windowStart) <==> t in ts && t > windowStart
  {
    if ts != [] {
      PruneMembers(ts[..|ts| - 1], windowStart);
      assert ts == ts[..|ts| - 1] + [ts[|ts| - 1]];
    }
  }

  /** Pruning keeps as many times as lie after the window start. */
  lemma {:induction false} PruneCounts(ts: seq<real>, windowStart: real)
    ensures |Prune(ts, windowStart)| == CountAfter(ts, windowStart)
  {
    if ts != [] {
      PruneAppend([ts[0]], ts[1..], windowStart);
      assert [ts[0]] + ts[1..] == ts;
      assert Prune([ts[0]], windowStart) == Prune([], windowStart) + (if ts[0] > windowStart then [ts[0]] else []);
      PruneCounts(ts[1..], windowStart);
    }
  }

  /** Pruning keeps the times in ascending order when they were. */
  lemma {:induction false} PruneSorted(ts: seq<real>, windowStart: real)
    requires forall i, j :: 0 <= i < j < |ts| ==> ts[i] <= ts[j]
    ensures var r := Prune(ts, windowStart);
      forall i, j :: 0 <= i < j < |r| ==> r[i] <= r[j]
  {
    if ts != [] {
      var init, last := ts[..|ts| - 1], ts[|ts| - 1];
      PruneSorted(init, windowStart);
      PruneMembers(init, windowStart);
      var p := Prune(init, windowStart);
      forall i | 0 <= i < |p| ensures p[i] <= last {
        assert p[i] in Prune(init, windowStart);
        var k :| 0 <= k < |init| && init[k] == p[i];
        assert ts[k] == p[i];
      }
      assert Prune(ts, windowStart) == p + (if last > windowStart then [last] else []);
    }
  }

  /** The rate-limit rule: a request is denied exactly when the client already
      has ten or more requests in the last 60 seconds.  A denied request
      records nothing; an allowed one records its time after the recent ones.
      Every other client's record is left as it was. */
  lemma RateLimitRule(table: map<string, seq<real>>, ip: string, now: real)
    ensures var (limited, table') := RateLimitStep(table, ip, now);
      var recent := Prune(History(table, ip), now - RateLimitWindow);
      && (limited <==> CountAfter(History(table, ip), now - RateLimitWindow) >= RateLimitRequests)
      && ip in table'
      && table'[ip] == (if limited then recent else recent + [now])
      && (forall t :: t in table'[ip] <==>
            (t in History(table, ip) && t > now - RateLimitWindow) || (!limited && t == now))
      && (forall k :: k != ip ==> (k in table' <==> k in table) && (k in table ==> table'[k] == table[k]))
  {
    PruneCounts(History(table, ip), now - RateLimitWindow);
    PruneMembers(History(table, ip), now - RateLimitWindow);
  }

  /** No client ever has more than ten times on record. */
  lemma RateLimitKeepsBound(table: map<string, seq<real>>, ip: string, now: real)
    requires Bounded(table)
    ensures Bounded(RateLimitStep(table, ip, now).1)
  {
  }

  /** With a clock that does not go backwards, each client's record stays in
      ascending order. */
  lemma RateLimitKeepsOrder(table: map<string, seq<real>>, ip: string, now: real)
    requires forall i, j :: 0 <= i < j < |History(table, ip)| ==> History(table, ip)[i] <= History(table, ip)[j]
    requires forall i :: 0 <= i < |History(table, ip)| ==> History(table, ip)[i] <= now
    ensures var h := History(RateLimitStep(table, ip, now).1, ip);
      forall i, j :: 0 <= i < j < |h| ==> h[i] <= h[j]
  {
    var ts := History(table, ip);
    var recent := Prune(ts, now - RateLimitWindow);
    PruneSorted(ts, now - RateLimitWindow);
    PruneMembers(ts, now - RateLimitWindow);
    forall i | 0 <= i < |recent| ensures recent[i] <= now {
      assert recent[i] in Prune(ts, now - RateLimitWindow);
      var k :| 0 <= k < |ts| && ts[k] == recent[i];
    }
    var h := History(RateLimitStep(table, ip, now).1, ip);
    assert h == recent || h == recent + [now];
  }

  // ---------------------------------------------------------------------------
  // Properties of the handler

  /** The handler checks the rate limit first, then the description, then
      the triage result: a denied request is answered 429 whatever it holds;
      an allowed blank one is answered 400, the slot it took staying used; a
      200 carries the triage result, whose category and severity are then in
      the closed sets. */
  lemma HandleOrder(table: map<string, seq<real>>, ip: string, now: real, description: string,
                    triaged: TriageResult)
    ensures var (resp, table') := Handle(table, ip, now, description, triaged);
      var limited := RateLimitStep(table, ip, now).0;
      && (resp.Status() == 429 <==> limited)
      && (resp.Status() == 400 <==> !limited && IsBlank(description))
      && (resp.Ok? <==>
            !limited && !IsBlank(description) && IsCategoryValue(triaged.category) && IsSeverityValue(triaged.severity))
      && (resp.Ok? ==> resp.result == triaged)
  {
  }

  /** A request answered 400 has been recorded against its client, so blank
      descriptions count towards the limit. */
  lemma BlankRequestCounts(table: map<string, seq<real>>, ip: string, now: real, description: string,
                           triaged: TriageResult)
    ensures var (resp, table') := Handle(table, ip, now, description, triaged);
      resp.Status() == 400 ==>
        && CountAfter(History(table, ip), now - RateLimitWindow) < RateLimitRequests
        && History(table', ip) == Prune(History(table, ip), now - RateLimitWindow) + [now]
  {
    PruneCounts(History(table, ip), now - RateLimitWindow);
  }

  /** An empty or all-whitespace description, let through by the rate
      limiter, is answered 400 with its message. */
  lemma BlankIsBadRequest(table: map<string, seq<real>>, ip: string, now: real, description: string,
                          triaged: TriageResult)
    requires CountAfter(History(table, ip), now - RateLimitWindow) < RateLimitRequests
    requires forall i :: 0 <= i < |description| ==> IsSpace(description[i])
    ensures Handle(table, ip, now, description, triaged).0 == BadRequest("description cannot be empty")
  {
    PruneCounts(History(table, ip), now - RateLimitWindow);
  }

  /** Without the remote service, an allowed request with a non-blank
      description is always answered 200 with its triage. */
  lemma HandleWithoutService(table: map<string, seq<real>>, ip: string, now: real, description: string,
                             cfg: LlmConfig, service: nat -> Outcome, parse: string -> Option<Json>,
                             kb: seq<KBEntry>, sims: seq<real>, order: seq<nat>)
    requires |sims| == |kb| && IsArgsort(order, sims)
    requires !UsesService(cfg) && !IsBlank(description)
    requires !RateLimitStep(table, ip, now).0
    ensures var triaged := Triage(description, cfg, service, parse, kb, sims, order);
      Handle(table, ip, now, description, triaged).0 == Ok(triaged)
  {
    TriageWithoutService(description, cfg, service, parse, kb, sims, order);
  }
}
