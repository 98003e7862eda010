/**
 * The per-client rate limiter of the HTTP API (rateLimit in
 * cmd/api/middleware.go): a table from client IP to a token bucket and the
 * time the client was last seen, a check made on every request, and a sweep
 * that forgets clients idle for more than three minutes. Times are
 * nanoseconds on the monotonic clock, passed in as `now`.
 */
module RateLimit {
  import opened Wrappers
  import opened Text

  /** Nanoseconds in a second; a token is counted in billionths, so one second at `rps` adds `rps * SCALE`. */
  const SCALE: nat := 1_000_000_000

  /** Three minutes: a client idle for longer is swept. */
  const IDLE_LIMIT: int := 3 * 60 * SCALE

  // ---------------------------------------------------------------------
  // net.SplitHostPort

  /**
   * net.SplitHostPort: the port follows the last colon; a host holding a colon
   * must be bracketed, and a bracket anywhere else is an error.
   */
  function SplitHostPort(hostport: string): (r: Option<(string, string)>)
  {
    var i := LastIndexOf(hostport, ':');
    if i < 0 then None
    else
      var bracketed := hostport[0] == '[';
      var end := IndexOf(hostport, ']');
      if bracketed && end < 0 then None
      else if bracketed && end + 1 != i then None
      else
        var host := if bracketed then hostport[1..end] else hostport[..i];
        var j := if bracketed then 1 else 0;
        var k := if bracketed then end + 1 else 0;
        if !bracketed && ':' in host then None
        else if '[' in hostport[j..] then None
        else if ']' in hostport[k..] then None
        else Some((host, hostport[i + 1..]))
  }

  /** The characters a host or port may hold without brackets. */
  predicate PlainPart(s: string) {
    ':' !in s && '[' !in s && ']' !in s
  }

  /** "host:port" splits back into its host and port. */
  lemma SplitHostPortPlain(host: string, port: string)
    requires PlainPart(host) && PlainPart(port)
    ensures SplitHostPort(host + ":" + port) == Some((host, port))
  {
    var s := host + ":" + port;
    LastIndexBeforeSuffix(host, port, ':');
    assert s[..|host|] == host;
    assert s[|host| + 1..] == port;
    assert s[0] != '[' by {
      if |host| > 0 {
        assert s[0] == host[0];
      }
    }
    assert ']' !in s && '[' !in s;
  }

  /** The facts about a bracketed address that decide its split. */
  lemma SplitBracketedShape(hostport: string, n: int, host: string, port: string)
    requires 0 <= n && n + 3 <= |hostport| && hostport[0] == '['
    requires LastIndexOf(hostport, ':') == n + 2 && IndexOf(hostport, ']') == n + 1
    requires hostport[1..n + 1] == host && hostport[n + 3..] == port
    requires '[' !in hostport[1..] && ']' !in hostport[n + 2..]
    ensures SplitHostPort(hostport) == Some((host, port))
  {
  }

  /** The port of "[host]:port" follows its last colon. */
  lemma BracketedColon(host: string, port: string)
    requires PlainPart(port)
    ensures LastIndexOf("[" + host + "]:" + port, ':') == |host| + 2
  {
    var s := "[" + host + "]:" + port;
    assert s[|host| + 3..] == port;
    LastIndexOfAt(s, ':', |host| + 2);
  }

  /** The first closing bracket of "[host]:port" ends the host. */
  lemma BracketedClose(host: string, port: string)
    requires ']' !in host
    ensures IndexOf("[" + host + "]:" + port, ']') == |host| + 1
  {
    assert "[" + host + "]:" + port == ("[" + host) + [']'] + (":" + port);
    IndexAfterPrefix("[" + host, ":" + port, ']');
  }

  /** The pieces of "[host]:port" that the split inspects. */
  lemma BracketedPieces(host: string, port: string)
    requires '[' !in host && PlainPart(port)
    ensures var s := "[" + host + "]:" + port;
      && s[0] == '[' && s[1..|host| + 1] == host && s[|host| + 3..] == port
      && '[' !in s[1..] && ']' !in s[|host| + 2..]
  {
    var s := "[" + host + "]:" + port;
    assert s[1..] == host + "]:" + port;
    assert s[|host| + 2..] == ":" + port;
    assert s[1..|host| + 1] == host;
    assert s[|host| + 3..] == port;
  }

  /** "[host]:port" splits back into its host (which may hold colons) and port. */
  lemma SplitHostPortBracketed(host: string, port: string)
    requires '[' !in host && ']' !in host && PlainPart(port)
    ensures SplitHostPort("[" + host + "]:" + port) == Some((host, port))
  {
    BracketedColon(host, port);
    BracketedClose(host, port);
    BracketedPieces(host, port);
    SplitBracketedShape("[" + host + "]:" + port, |host|, host, port);
  }

  /** An address without a colon has no port and is refused. */
  lemma SplitHostPortMissingPort(hostport: string)
    requires ':' !in hostport
    ensures SplitHostPort(hostport) == None
  {
  }

  // ---------------------------------------------------------------------
  // The token bucket of rate.Limiter, on integers

  /** Tokens in billionths and the time they were counted at. */
  datatype Bucket = Bucket(tokens: int, last: int)

  /** A bucket never holds a negative count nor more than `burst` tokens. */
  predicate BucketValid(b: Bucket, burst: nat) {
    0 <= b.tokens <= burst * SCALE
  }

  /** rate.NewLimiter: a new limiter's first request finds the bucket full. */
  function Fresh(burst: nat, now: int): (b: Bucket)
    ensures BucketValid(b, burst)
  {
    Bucket(burst * SCALE, now)
  }

  /** The tokens at `now`: `rps` per second since the last count, capped at `burst`; a clock that went back adds none. */
  function Advance(b: Bucket, now: int, rps: nat, burst: nat): int {
    var elapsed := if now > b.last then now - b.last else 0;
    var tokens := b.tokens + elapsed * rps;
    if tokens > burst * SCALE then burst * SCALE else tokens
  }

  /** Limiter.Allow: takes one token when one is there; a refused request leaves the bucket as it was. */
  function Allow(b: Bucket, now: int, rps: nat, burst: nat): (bool, Bucket) {
    var tokens := Advance(b, now, rps, burst) - SCALE;
    if tokens < 0 then (false, b) else (true, Bucket(tokens, now))
  }

  /** Allow keeps a bucket within its bounds, and admits exactly when a whole token has built up. */
  lemma AllowKeepsBucketValid(b: Bucket, now: int, rps: nat, burst: nat)
    requires BucketValid(b, burst)
    ensures BucketValid(Allow(b, now, rps, burst).1, burst)
    ensures Allow(b, now, rps, burst).0 <==> Advance(b, now, rps, burst) >= SCALE
    ensures Allow(b, now, rps, burst).0 ==> Allow(b, now, rps, burst).1.tokens == Advance(b, now, rps, burst) - SCALE
  {
  }

  /** How many of `n` requests arriving together at `now` are admitted. */
  function Admitted(b: Bucket, now: int, rps: nat, burst: nat, n: nat): nat
    decreases n
  {
    if n == 0 then 0
    else
      var (ok, after) := Allow(b, now, rps, burst);
      (if ok then 1 else 0) + Admitted(after, now, rps, burst, n - 1)
  }

  /** A bucket holding `k` whole tokens admits `min(n, k)` of `n` simultaneous requests. */
  lemma {:induction false} AdmittedAtOnce(k: nat, now: int, rps: nat, burst: nat, n: nat)
    requires k <= burst
    ensures Admitted(Bucket(k * SCALE, now), now, rps, burst, n) == if n < k then n else k
    decreases n
  {
    if n > 0 {
      if k > 0 {
        assert Allow(Bucket(k * SCALE, now), now, rps, burst) == (true, Bucket((k - 1) * SCALE, now));
        AdmittedAtOnce(k - 1, now, rps, burst, n - 1);
      } else {
        assert Allow(Bucket(0, now), now, rps, burst) == (false, Bucket(0, now));
        AdmittedAtOnce(0, now, rps, burst, n - 1);
      }
    }
  }

  /** A new client may make `burst` requests at once and no more. */
  lemma FreshBurst(now: int, rps: nat, burst: nat, n: nat)
    ensures Admitted(Fresh(burst, now), now, rps, burst, n) == if n < burst then n else burst
  {
    AdmittedAtOnce(burst, now, rps, burst, n);
  }

  // ---------------------------------------------------------------------
  // The client table

  /** One client's limiter and the last time it made a checked request. */
  datatype Client = Client(limiter: Bucket, lastSeen: int)

  /** What the middleware does with a request. */
  datatype Outcome = Forward | ServerError | TooManyRequests

  /** The client has been idle for more than three minutes at `now`. */
  predicate Idle(c: Client, now: int) {
    now - c.lastSeen > IDLE_LIMIT
  }

  /** The table after a sweep at `now`: the clients that are not idle, as they were. */
  function Swept(clients: map<string, Client>, now: int): map<string, Client> {
    map ip | ip in clients && !Idle(clients[ip], now) :: clients[ip]
  }

  /** A client seen at `t` survives every sweep up to three minutes later, unchanged. */
  lemma SurvivesSweep(clients: map<string, Client>, ip: string, t: int, now: int)
    requires ip in clients && clients[ip].lastSeen == t && now <= t + IDLE_LIMIT
    ensures ip in Swept(clients, now) && Swept(clients, now)[ip] == clients[ip]
  {
  }

  /** A client idle too long is gone after the sweep. */
  lemma IdleIsSwept(clients: map<string, Client>, ip: string, now: int)
    requires ip in clients && Idle(clients[ip], now)
    ensures ip !in Swept(clients, now)
  {
  }

  /** Sweeping twice at once is sweeping once, and a later sweep keeps only clients an earlier one kept. */
  lemma SweepMonotone(clients: map<string, Client>, t1: int, t2: int)
    requires t1 <= t2
    ensures Swept(Swept(clients, t1), t1) == Swept(clients, t1)
    ensures Swept(clients, t2).Keys <= Swept(clients, t1).Keys
  {
  }

  /** The limiter of one bucket per client, with the configuration of the server. */
  class RateLimiter {
    const enabled: bool
    const rps: nat
    const burst: nat
    var clients: map<string, Client>

    /** Every client's bucket is within its bounds. */
    predicate Valid()
      reads this
    {
      forall ip :: ip in clients ==> BucketValid(clients[ip].limiter, burst)
    }

    constructor (enabled: bool, rps: nat, burst: nat)
      ensures this.enabled == enabled && this.rps == rps && this.burst == burst
      ensures clients == map[] && Valid()
    {
      this.enabled := enabled;
      this.rps := rps;
      this.burst := burst;
      clients := map[];
    }

    /**
     * The check on one request. Disabled, it forwards everything. Otherwise an
     * address without a port is a server error; a client seen for the first time
     * gets a full bucket; the client's lastSeen becomes `now` whether or not the
     * request is admitted; and the bucket decides between forwarding and
     * refusing. No other client's entry changes.
     */
    method Handle(remoteAddr: string, now: int) returns (outcome: Outcome)
      requires Valid()
      modifies this
      ensures Valid()
      ensures !enabled ==> outcome == Forward && clients == old(clients)
      ensures enabled && SplitHostPort(remoteAddr).None? ==> outcome == ServerError && clients == old(clients)
      ensures enabled && SplitHostPort(remoteAddr).Some? ==>
        var ip := SplitHostPort(remoteAddr).value.0;
        var before := if ip in old(clients) then old(clients)[ip].limiter else Fresh(burst, now);
        var (ok, after) := Allow(before, now, rps, burst);
        && clients == old(clients)[ip := Client(after, now)]
        && outcome == (if ok then Forward else TooManyRequests)
    {
      if !enabled {
        return Forward;
      }
      var addr := SplitHostPort(remoteAddr);
      if addr.None? {
        return ServerError;
      }
      var ip := addr.value.0;
      if ip !in clients {
        clients := clients[ip := Client(Fresh(burst, now), now)];
      }
      clients := clients[ip := clients[ip].(lastSeen := now)];
      AllowKeepsBucketValid(clients[ip].limiter, now, rps, burst);
      var (ok, after) := Allow(clients[ip].limiter, now, rps, burst);
      clients := clients[ip := clients[ip].(limiter := after)];
      outcome := if ok then Forward else TooManyRequests;
    }

    /** The sweep: goes through the clients and deletes each one idle for more than three minutes. */
    method Sweep(now: int)
      requires Valid()
      modifies this
      ensures Valid()
      ensures clients == Swept(old(clients), now)
    {
      var pending := clients.Keys;
      while pending != {}
        invariant pending <= old(clients).Keys
        invariant clients == map ip | ip in old(clients) && (ip in pending || !Idle(old(clients)[ip], now)) :: old(clients)[ip]
        decreases pending
      {
        var ip :| ip in pending;
        if Idle(clients[ip], now) {
          clients := clients - {ip};
        }
        pending := pending - {ip};
      }
    }
  }

  /** A request admitted at `t` keeps its client in the table through any sweep up to three minutes later. */
  lemma HandledClientSurvives(clients: map<string, Client>, ip: string, c: Client, t: int, now: int)
    requires c.lastSeen == t && now <= t + IDLE_LIMIT
    ensures ip in Swept(clients[ip := c], now) && Swept(clients[ip := c], now)[ip] == c
  {
  }
}
