/** The console's token-bucket rate limiter (`rateLimiter`) with its two sweeps
    over stale clients. Times are seconds; float64 is modelled by real. */
module RateLimiter {
  type Ip = seq<int>

  datatype Client = Client(tokens: real, lastAccess: real)
  type Clients = map<Ip, Client>

  const MAX_CLIENTS: nat := 10000
  const CLEANUP_EVERY := 60.0
  const STALE_AFTER := 600.0
  const CROWDED_STALE_AFTER := 60.0

  /** The size of a bucket and what flows into it in some seconds. */
  datatype Bucket = Bucket(burst: real, inflow: real -> real)
  {
    /** A steady inflow that refills the whole bucket in a minute. */
    ghost predicate Valid() {
      && burst >= 1.0 && inflow(60.0) == burst && inflow(0.0) == 0.0
      && (forall x, y :: Adds(x, y))
      && (forall x :: x >= 0.0 ==> inflow(x) >= 0.0)
    }

    predicate Adds(x: real, y: real) {
      inflow(x + y) == inflow(x) + inflow(y)
    }
  }

  /** A limit per minute is the size of the bucket and its refill in a minute. */
  function BucketFor(limitPerMin: int): Bucket {
    var rate := limitPerMin as real / 60.0;
    Bucket(limitPerMin as real, (seconds: real) => seconds * rate)
  }

  lemma BucketIsSteady(limitPerMin: int)
    requires limitPerMin > 0
    ensures BucketFor(limitPerMin).Valid() && BucketFor(limitPerMin).burst == limitPerMin as real
  {
    var rate := limitPerMin as real / 60.0;
    forall x, y ensures BucketFor(limitPerMin).Adds(x, y) {
      Distribute(x, y, rate);
    }
    forall x | x >= 0.0 ensures BucketFor(limitPerMin).inflow(x) >= 0.0 {
      Product(x, rate);
    }
  }

  lemma Distribute(x: real, y: real, z: real)
    ensures (x + y) * z == x * z + y * z
  {
  }

  lemma Product(x: real, y: real)
    requires x >= 0.0 && y >= 0.0
    ensures x * y >= 0.0
  {
  }

  // ----- one request -----

  function Forget(clients: Clients, now: real, age: real): Clients {
    map k | k in clients && !(now - clients[k].lastAccess > age) :: clients[k]
  }

  function Refilled(b: Bucket, c: Client, now: real): real {
    var tokens := c.tokens + b.inflow(now - c.lastAccess);
    if tokens > b.burst then b.burst else tokens
  }

  function Known(b: Bucket, clients: Clients, ip: Ip, now: real): Client {
    if ip in clients then clients[ip] else Client(b.burst, now)
  }

  /** Refill the client's bucket and take a token if there is one. */
  function Decide(b: Bucket, clients: Clients, ip: Ip, now: real): (Clients, bool) {
    var tokens := Refilled(b, Known(b, clients, ip, now), now);
    var ok := tokens >= 1.0;
    (clients[ip := Client(if ok then tokens - 1.0 else tokens, now)], ok)
  }

  /** What the sweeps leave before a request of `ip` is decided. */
  function Swept(clients: Clients, lastCleanup: real, ip: Ip, now: real): Clients {
    var kept := if now - lastCleanup > CLEANUP_EVERY then Forget(clients, now, STALE_AFTER) else clients;
    if ip !in kept && |kept| >= MAX_CLIENTS then Forget(kept, now, CROWDED_STALE_AFTER) else kept
  }

  function CleanedUp(lastCleanup: real, now: real): real {
    if now - lastCleanup > CLEANUP_EVERY then now else lastCleanup
  }

  class Limiter {
    const bucket: Bucket
    const disabled: bool
    var clients: Clients
    var lastCleanup: real

    /** A limit of -1 turns the limiter off. */
    constructor (limitPerMin: int, now: real)
      ensures bucket == BucketFor(limitPerMin) &&  (disabled <==> limitPerMin == -1)
      ensures clients == map[] && lastCleanup == now
    {
      bucket, disabled := BucketFor(limitPerMin), limitPerMin == -1;
      clients, lastCleanup := map[], now;
    }

    method Allow(ip: Ip, now: real) returns (ok: bool)
      modifies this
      ensures disabled ==> ok && clients == old(clients) && lastCleanup == old(lastCleanup)
      ensures !disabled ==> (clients, ok) == Decide(bucket, Swept(old(clients), old(lastCleanup), ip, now), ip, now)
      ensures !disabled ==> lastCleanup == CleanedUp(old(lastCleanup), now)
    {
      if disabled {
        return true;
      }
      if now - lastCleanup > CLEANUP_EVERY {
        Sweep(now, STALE_AFTER);
        lastCleanup := now;
      }
      if ip !in clients && |clients| >= MAX_CLIENTS {
        Sweep(now, CROWDED_STALE_AFTER);
      }
      ok := TakeToken(ip, now);
    }

    method TakeToken(ip: Ip, now: real) returns (ok: bool)
      modifies this`clients
      ensures (clients, ok) == Decide(bucket, old(clients), ip, now)
    {
      if ip !in clients {
        clients := clients[ip := Client(bucket.burst, now)];
      }
      var client := clients[ip];
      var tokens := client.tokens + bucket.inflow(now - client.lastAccess);
      if tokens > bucket.burst {
        tokens := bucket.burst;
      }
      ok := tokens >= 1.0;
      if ok {
        tokens := tokens - 1.0;
      }
      clients := clients[ip := Client(tokens, now)];
      assert clients == old(clients)[ip := Client(tokens, now)];
    }

    /** The loop over the map, in any order, deleting as it goes. */
    method Sweep(now: real, age: real)
      modifies this`clients
      ensures clients == Forget(old(clients), now, age)
    {
      var keys := clients.Keys;
      while keys != {}
        invariant keys <= clients.Keys <= old(clients).Keys
        invariant forall k :: k in clients ==> clients[k] == old(clients)[k]
        invariant forall k ::
                    k in old(clients) && k !in keys ==> (k in clients <==> !(now - old(clients)[k].lastAccess > age))
        decreases |keys|
      {
        var k :| k in keys;
        keys := keys - {k};
        if now - clients[k].lastAccess > age {
          clients := clients - {k};
        }
      }
    }
  }

  /** A request is admitted exactly when its client's bucket, refilled, holds a token;
      the bucket of a client that is not known is full. */
  lemma AdmittedIff(b: Bucket, clients: Clients, ip: Ip, now: real)
    requires b.Valid()
    ensures Decide(b, clients, ip, now).1 <==>
            ip !in clients || clients[ip].tokens + b.inflow(now - clients[ip].lastAccess) >= 1.0
  {
    assert now - now == 0.0;
  }

  /** A refused request costs nothing: whatever its client asks for later is decided,
      and leaves the limiter, as if it had not been made. */
  lemma RefusalsAreFree(b: Bucket, clients: Clients, ip: Ip, now: real, later: real)
    requires b.Valid() && !Decide(b, clients, ip, now).1
    requires ip in clients && clients[ip].lastAccess <= now <= later
    ensures Decide(b, Decide(b, clients, ip, now).0, ip, later) == Decide(b, clients, ip, later)
  {
    var since := clients[ip].lastAccess;
    assert (now - since) + (later - now) == later - since;
    assert b.Adds(now - since, later - now);
    var after := Decide(b, clients, ip, now).0;
    var tokens := Refilled(b, clients[ip], now);
    assert after == clients[ip := Client(tokens, now)];
    assert Refilled(b, Client(tokens, now), later) == Refilled(b, clients[ip], later);
    var c := Decide(b, clients, ip, later).0[ip];
    assert after[ip := c] == clients[ip := c];
  }

  /** An admitted request takes one token, and no request touches another client. */
  lemma AdmissionTakesOne(b: Bucket, clients: Clients, ip: Ip, now: real)
    requires b.Valid() && ip in clients && Decide(b, clients, ip, now).1
    ensures var after := Decide(b, clients, ip, now).0;
            && after.Keys == clients.Keys && after[ip].lastAccess == now
            && (after[ip].tokens + 1.0 == b.burst
                || (after[ip].tokens + 1.0 < b.burst
                    && after[ip].tokens + 1.0 == clients[ip].tokens + b.inflow(now - clients[ip].lastAccess)))
            && forall k :: k in clients && k != ip ==> after[k] == clients[k]
  {
  }

  /** Clients not seen for ten minutes go once a minute, and those not seen for a minute
      when a new client comes and there are 10000 already. */
  lemma SweptMeans(clients: Clients, lastCleanup: real, ip: Ip, now: real)
    ensures var first := if now - lastCleanup <= 60.0 then clients
                         else map k | k in clients && now - clients[k].lastAccess <= 600.0 :: clients[k];
            Swept(clients, lastCleanup, ip, now) ==
              if ip in first || |first| < 10000 then first
              else map k | k in first && now - first[k].lastAccess <= 60.0 :: first[k]
  {
    assert Forget(clients, now, 600.0) == map k | k in clients && now - clients[k].lastAccess <= 600.0 :: clients[k];
    var first := if now - lastCleanup <= 60.0 then clients
                 else map k | k in clients && now - clients[k].lastAccess <= 600.0 :: clients[k];
    assert Forget(first, now, 60.0) == map k | k in first && now - first[k].lastAccess <= 60.0 :: first[k];
  }

  // ----- forgetting is unobservable -----

  /** A refilled bucket holds between nothing and the burst; a new one is full. */
  lemma RefillBounds(b: Bucket, c: Client, now: real)
    requires b.Valid() && c.tokens >= 0.0 && c.lastAccess <= now
    ensures 0.0 <= Refilled(b, c, now) <= b.burst && b.burst >= 1.0
    ensures Refilled(b, Client(b.burst, now), now) == b.burst
  {
    assert now - now == 0.0;
  }

  /** After a minute every bucket is full again. */
  lemma FullAfterAMinute(b: Bucket, c: Client, now: real)
    requires b.Valid() && c.tokens >= 0.0 && now - c.lastAccess >= 60.0
    ensures Refilled(b, c, now) == b.burst
  {
    var more := now - c.lastAccess - 60.0;
    assert b.Adds(60.0, more) && b.inflow(more) >= 0.0;
    assert 60.0 + more == now - c.lastAccess;
  }

  /** No client has a negative bucket or was seen in the future. */
  ghost predicate Sound(clients: Clients, now: real) {
    forall k :: k in clients ==> clients[k].tokens >= 0.0 && clients[k].lastAccess <= now
  }

  /** What the limiter still knows is right, and whom it forgot has a full bucket. */
  ghost predicate Forgets(b: Bucket, kept: Clients, all: Clients, now: real) {
    && (forall k :: k in kept ==> k in all && kept[k] == all[k])
    && (forall k :: k in all && k !in kept ==> Refilled(b, all[k], now) == b.burst)
  }

  lemma RefillGrows(b: Bucket, c: Client, now: real, later: real)
    requires b.Valid() && now <= later
    ensures Refilled(b, c, now) <= Refilled(b, c, later) <= Refilled(b, c, now) + b.inflow(later - now)
    ensures Refilled(b, c, later) <= b.burst
  {
    assert b.Adds(now - c.lastAccess, later - now) && b.inflow(later - now) >= 0.0;
    assert (now - c.lastAccess) + (later - now) == later - c.lastAccess;
  }

  lemma ForgetsLater(b: Bucket, kept: Clients, all: Clients, now: real, later: real)
    requires b.Valid() && Forgets(b, kept, all, now) && now <= later
    ensures Forgets(b, kept, all, later)
  {
    forall k | k in all && k !in kept ensures Refilled(b, all[k], later) == b.burst {
      RefillGrows(b, all[k], now, later);
    }
  }

  lemma ForgetForgets(b: Bucket, kept: Clients, all: Clients, now: real, age: real)
    requires b.Valid() && Forgets(b, kept, all, now) && Sound(all, now) && age >= 60.0
    ensures Forgets(b, Forget(kept, now, age), all, now)
  {
    forall k | k in all && k !in Forget(kept, now, age) ensures Refilled(b, all[k], now) == b.burst {
      if k in kept {
        FullAfterAMinute(b, all[k], now);
      }
    }
  }

  lemma SweptForgets(b: Bucket, kept: Clients, all: Clients, lastCleanup: real, ip: Ip, now: real)
    requires b.Valid() && Forgets(b, kept, all, now) && Sound(all, now)
    ensures Forgets(b, Swept(kept, lastCleanup, ip, now), all, now)
  {
    ForgetForgets(b, kept, all, now, STALE_AFTER);
    var first := if now - lastCleanup > CLEANUP_EVERY then Forget(kept, now, STALE_AFTER) else kept;
    ForgetForgets(b, first, all, now, CROWDED_STALE_AFTER);
  }

  /** A limiter that forgets decides like one that does not, and goes on so. */
  lemma DecideAgrees(b: Bucket, kept: Clients, all: Clients, ip: Ip, now: real)
    requires b.Valid() && Forgets(b, kept, all, now) && Sound(all, now)
    ensures var (k, a) := (Decide(b, kept, ip, now), Decide(b, all, ip, now));
            k.1 == a.1 && Forgets(b, k.0, a.0, now) && Sound(a.0, now)
  {
    RefillBounds(b, Known(b, all, ip, now), now);
    var k, a := Decide(b, kept, ip, now), Decide(b, all, ip, now);
    forall x | x in a.0 ensures a.0[x].tokens >= 0.0 && a.0[x].lastAccess <= now {
    }
  }

  datatype Request = Request(ip: Ip, now: real)

  /** The decisions of the limiter, and those of one that never forgets. */
  function Decisions(b: Bucket, clients: Clients, lastCleanup: real, rs: seq<Request>): seq<bool>
    decreases |rs|
  {
    if rs == [] then []
    else
      var r := rs[0];
      var d := Decide(b, Swept(clients, lastCleanup, r.ip, r.now), r.ip, r.now);
      [d.1] + Decisions(b, d.0, CleanedUp(lastCleanup, r.now), rs[1..])
  }

  function Remembered(b: Bucket, clients: Clients, rs: seq<Request>): seq<bool>
    decreases |rs|
  {
    if rs == [] then []
    else
      var d := Decide(b, clients, rs[0].ip, rs[0].now);
      [d.1] + Remembered(b, d.0, rs[1..])
  }

  ghost predicate InOrder(rs: seq<Request>, start: real)
    decreases |rs|
  {
    rs != [] ==> start <= rs[0].now && InOrder(rs[1..], rs[0].now)
  }

  /** Over any requests in order of time, both sweeps leave every decision as it
      would be without them. */
  lemma {:induction false} SweepsAreUnobservable(b: Bucket, kept: Clients, all: Clients, lastCleanup: real,
                                                 rs: seq<Request>, start: real)
    requires b.Valid() && InOrder(rs, start) && Forgets(b, kept, all, start) && Sound(all, start)
    ensures Decisions(b, kept, lastCleanup, rs) == Remembered(b, all, rs)
    decreases |rs|
  {
    if rs != [] {
      var r := rs[0];
      ForgetsLater(b, kept, all, start, r.now);
      SweptForgets(b, kept, all, lastCleanup, r.ip, r.now);
      var swept := Swept(kept, lastCleanup, r.ip, r.now);
      DecideAgrees(b, swept, all, r.ip, r.now);
      SweepsAreUnobservable(b, Decide(b, swept, r.ip, r.now).0, Decide(b, all, r.ip, r.now).0,
          CleanedUp(lastCleanup, r.now), rs[1..], r.now);
    }
  }

  // ----- a client with tokens gets through -----

  /** `n` requests of one client at one time. */
  function AtOnce(ip: Ip, now: real, n: nat): seq<Request> {
    if n == 0 then [] else [Request(ip, now)] + AtOnce(ip, now, n - 1)
  }

  lemma {:induction false} TokensAreSpent(b: Bucket, clients: Clients, ip: Ip, now: real, n: nat)
    requires b.Valid() && ip in clients && clients[ip].lastAccess == now && 0.0 <= clients[ip].tokens <= b.burst
    ensures |Remembered(b, clients, AtOnce(ip, now, n))| == n
    ensures forall i :: 0 <= i < n ==>
              (Remembered(b, clients, AtOnce(ip, now, n))[i] <==> (i + 1) as real <= clients[ip].tokens)
  {
    if n > 0 {
      assert now - now == 0.0;
      var tokens, d := clients[ip].tokens, Decide(b, clients, ip, now);
      assert AtOnce(ip, now, n)[1..] == AtOnce(ip, now, n - 1);
      assert d.1 <==> tokens >= 1.0;
      var after := d.0[ip].tokens;
      TokensAreSpent(b, d.0, ip, now, n - 1);
      var ds, rest := Remembered(b, clients, AtOnce(ip, now, n)), Remembered(b, d.0, AtOnce(ip, now, n - 1));
      assert ds == [d.1] + rest;
      forall i | 0 < i < n ensures ds[i] <==> (i + 1) as real <= tokens {
        assert ds[i] == rest[i - 1];
        assert (i - 1 + 1) as real == (i + 1) as real - 1.0;
      }
    }
  }

  /** A new client is admitted as often at one time as the burst allows, and no more. */
  lemma NewClientHasBurst(b: Bucket, clients: Clients, ip: Ip, now: real, n: nat)
    requires b.Valid() && ip !in clients
    ensures |Remembered(b, clients, AtOnce(ip, now, n))| == n
    ensures forall i :: 0 <= i < n ==>
              (Remembered(b, clients, AtOnce(ip, now, n))[i] <==> (i + 1) as real <= b.burst)
  {
    var known := clients[ip := Client(b.burst, now)];
    TokensAreSpent(b, known, ip, now, n);
    if n > 0 {
      assert now - now == 0.0;
      assert Decide(b, clients, ip, now) == Decide(b, known, ip, now) by {
        assert known[ip := Decide(b, known, ip, now).0[ip]] == clients[ip := Decide(b, known, ip, now).0[ip]];
      }
    }
  }

  // ----- how many requests get through -----

  function Admitted(ds: seq<bool>, rs: seq<Request>, ip: Ip): nat
    requires |ds| == |rs|
  {
    if rs == [] then 0 else (if ds[0] && rs[0].ip == ip then 1 else 0) + Admitted(ds[1..], rs[1..], ip)
  }

  lemma {:induction false} OneDecisionEach(b: Bucket, clients: Clients, rs: seq<Request>)
    ensures |Remembered(b, clients, rs)| == |rs|
    decreases |rs|
  {
    if rs != [] {
      OneDecisionEach(b, Decide(b, clients, rs[0].ip, rs[0].now).0, rs[1..]);
    }
  }

  function Available(b: Bucket, clients: Clients, ip: Ip, now: real): real {
    Refilled(b, Known(b, clients, ip, now), now)
  }

  /** Until `later` a client gains what flows in and loses a token if admitted now. */
  lemma TokensFlow(b: Bucket, clients: Clients, r: Request, ip: Ip, later: real)
    requires b.Valid() && Sound(clients, r.now) && r.now <= later
    ensures var d := Decide(b, clients, r.ip, r.now);
            && Sound(d.0, r.now)
            && Available(b, d.0, ip, later) <= Available(b, clients, ip, r.now)
                  - (if d.1 && r.ip == ip then 1.0 else 0.0) + b.inflow(later - r.now)
  {
    var d := Decide(b, clients, r.ip, r.now);
    RefillBounds(b, Known(b, clients, r.ip, r.now), r.now);
    assert b.inflow(later - r.now) >= 0.0;
    if r.ip == ip {
      assert Available(b, d.0, ip, later) <= d.0[ip].tokens + b.inflow(later - r.now);
    } else if ip in clients {
      RefillGrows(b, clients[ip], r.now, later);
    } else {
      assert r.now - r.now == 0.0 && later - later == 0.0;
    }
  }

  function LastTime(rs: seq<Request>): real
    requires rs != []
  {
    rs[|rs| - 1].now
  }

  /** From any state, the requests admitted for one client stay within what its
      bucket holds and what flows in while they arrive. */
  lemma {:induction false} AdmittedWithinTokens(b: Bucket, clients: Clients, rs: seq<Request>, ip: Ip)
    requires b.Valid() && rs != [] && InOrder(rs, rs[0].now) && Sound(clients, rs[0].now)
    requires |Remembered(b, clients, rs)| == |rs|
    ensures Admitted(Remembered(b, clients, rs), rs, ip) as real <= Available(b, clients, ip, rs[0].now)
            + b.inflow(LastTime(rs) - rs[0].now)
    decreases |rs|
  {
    var r, rest := rs[0], rs[1..];
    var d := Decide(b, clients, r.ip, r.now);
    AdmittedUnfolds(b, clients, rs, ip);
    if rest == [] {
      OneStepAdmits(b, clients, r, ip);
      assert r.now - r.now == 0.0;
    } else {
      TokensFlow(b, clients, r, ip, rest[0].now);
      AdmittedWithinTokens(b, d.0, rest, ip);
      SplitTime(b, r.now, rest[0].now, LastTime(rest));
    }
  }

  lemma AdmittedUnfolds(b: Bucket, clients: Clients, rs: seq<Request>, ip: Ip)
    requires rs != [] && |Remembered(b, clients, rs)| == |rs|
    ensures var d := Decide(b, clients, rs[0].ip, rs[0].now);
            && |Remembered(b, d.0, rs[1..])| == |rs| - 1
            && Admitted(Remembered(b, clients, rs), rs, ip)
               == (if d.1 && rs[0].ip == ip then 1 else 0) + Admitted(Remembered(b, d.0, rs[1..]), rs[1..], ip)
  {
    var d := Decide(b, clients, rs[0].ip, rs[0].now);
    assert Remembered(b, clients, rs)[1..] == Remembered(b, d.0, rs[1..]);
  }

  lemma SplitTime(b: Bucket, x: real, y: real, z: real)
    requires b.Valid()
    ensures b.inflow(z - x) == b.inflow(z - y) + b.inflow(y - x)
  {
    assert b.Adds(z - y, y - x);
    assert (z - y) + (y - x) == z - x;
  }

  lemma OneStepAdmits(b: Bucket, clients: Clients, r: Request, ip: Ip)
    requires b.Valid() && Sound(clients, r.now)
    ensures Available(b, clients, ip, r.now) >= if Decide(b, clients, r.ip, r.now).1 && r.ip == ip then 1.0 else 0.0
  {
    RefillBounds(b, Known(b, clients, ip, r.now), r.now);
  }

  /** The clients after a run of the limiter that never forgets. */
  function AfterAll(b: Bucket, clients: Clients, rs: seq<Request>): Clients
    decreases |rs|
  {
    if rs == [] then clients else AfterAll(b, Decide(b, clients, rs[0].ip, rs[0].now).0, rs[1..])
  }

  lemma {:induction false} RunSplits(b: Bucket, clients: Clients, before: seq<Request>, window: seq<Request>,
                                     start: real)
    requires b.Valid() && InOrder(before + window, start) && Sound(clients, start)
    ensures Remembered(b, clients, before + window)
            == Remembered(b, clients, before) + Remembered(b, AfterAll(b, clients, before), window)
    ensures window != [] ==> Sound(AfterAll(b, clients, before), window[0].now) && InOrder(window, window[0].now)
    decreases |before|
  {
    var rs := before + window;
    if before == [] {
      assert rs == window;
    } else {
      var d := Decide(b, clients, before[0].ip, before[0].now);
      assert rs[1..] == before[1..] + window;
      DecideAgrees(b, clients, clients, before[0].ip, before[0].now);
      RunSplits(b, d.0, before[1..], window, before[0].now);
    }
  }

  /** In any window of time, whatever came before and whoever else calls, one
      client is admitted at most burst + rate * length times, sweeps and all. */
  lemma WindowBound(b: Bucket, start: real, before: seq<Request>, window: seq<Request>, ip: Ip)
    requires b.Valid() && window != [] && InOrder(before + window, start)
    ensures var ds := Decisions(b, map[], start, before + window);
            && |ds| == |before| + |window|
            && Admitted(ds[|before|..], window, ip) as real <= b.burst + b.inflow(LastTime(window) - window[0].now)
  {
    var rs := before + window;
    SweepsAreUnobservable(b, map[], map[], start, rs, start);
    RunSplits(b, map[], before, window, start);
    var clients := AfterAll(b, map[], before);
    OneDecisionEach(b, map[], before);
    OneDecisionEach(b, clients, window);
    assert Remembered(b, map[], rs)[|before|..] == Remembered(b, clients, window);
    AdmittedWithinTokens(b, clients, window, ip);
  }
}
