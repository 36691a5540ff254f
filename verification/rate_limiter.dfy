/** The Redis sliding-log rate limiter: one sorted set per client key, whose
    members are the seconds at which requests arrived, scored by that same
    second. */
module RateLimiter {
  import opened Wrappers
  import Text

  const DefaultLimit: int := 60
  const DefaultWindow: int := 60

  /** A sorted set: member to score. The source's members are the decimal
      text of a second; decimal printing is injective, so the second itself
      stands for its text. */
  type Log = map<int, int>

  /** The Redis keyspace as far as the limiter touches it. */
  type Keyspace = map<string, Log>

  datatype Client = Client(host: string)

  /** `_default_key_func`: the client's host, or "unknown" without one. */
  function DefaultKey(client: Option<Client>): (k: string)
    ensures Text.StartsWith(k, "rate_limit:")
    ensures k[|"rate_limit:"|..] == (if client.Some? then client.value.host else "unknown")
  {
    "rate_limit:" + (match client case Some(c) => c.host case None => "unknown")
  }

  /** Two clients share a log only when their hosts agree, with a missing
      client counted as the host "unknown". */
  lemma DefaultKeyInjective(a: Option<Client>, b: Option<Client>)
    ensures DefaultKey(a) == DefaultKey(b) <==>
      (if a.Some? then a.value.host else "unknown") == (if b.Some? then b.value.host else "unknown")
  {
    var ha := DefaultKey(a)[|"rate_limit:"|..];
    var hb := DefaultKey(b)[|"rate_limit:"|..];
    if DefaultKey(a) == DefaultKey(b) { assert ha == hb; }
  }

  /** The log of a key; an absent key reads as an empty set. */
  function LogOf(keys: Keyspace, key: string): (r: Log)
    ensures key in keys ==> r == keys[key]
    ensures key !in keys ==> r == map[]
  {
    if key in keys then keys[key] else map[]
  }

  /** `ZREMRANGEBYSCORE key 0 windowStart`: drops the members scored in
      `[0, windowStart]` and keeps every other member with its score. */
  function Purge(log: Log, windowStart: int): (r: Log)
    ensures forall m :: m in r <==> m in log && !(0 <= log[m] <= windowStart)
    ensures forall m :: m in r ==> r[m] == log[m]
  {
    map m | m in log && !(0 <= log[m] <= windowStart) :: log[m]
  }

  /** What the pipeline leaves behind and what `ZCARD` reported. */
  datatype Recorded = Recorded(keys: Keyspace, count: nat)

  /** The transaction: purge, count, add this second, set the expiry. An
      expiry that is not positive deletes the key at once; a positive one
      only removes entries a later purge would remove anyway. */
  function Record(keys: Keyspace, key: string, now: int, window: int): (r: Recorded)
    ensures r.count == |Purge(LogOf(keys, key), now - window)|
    ensures window > 0 ==> key in r.keys && r.keys[key] == Purge(LogOf(keys, key), now - window)[now := now]
    ensures window <= 0 ==> key !in r.keys
    ensures forall k :: k != key ==> (k in r.keys <==> k in keys) && (k in keys ==> r.keys[k] == keys[k])
  {
    var purged := Purge(LogOf(keys, key), now - window);
    var kept := if window > 0 then keys[key := purged[now := now]] else keys - {key};
    Recorded(kept, |purged|)
  }

  /** What the downstream application does when `call_next` runs it. */
  datatype Downstream = Responds(status: int) | Raises

  /** The limiter's own headers on a response that went through. */
  datatype Headers =
    | Counted(limit: int, remaining: int, reset: int)   // X-RateLimit-Limit/-Remaining/-Reset
    | Disabled                                           // X-RateLimit-Status: disabled

  datatype Reply =
    | TooMany(limit: int, window: int)   // the 429 JSON body naming the limit and window
    | Passed(status: int, headers: Headers)
    | Escaped                            // an exception leaves the middleware

  /** The new keyspace, the reply, and how many times the application ran. */
  datatype Outcome = Outcome(keys: Keyspace, reply: Reply, calls: nat)

  /** The except branch: run the application again, mark the response. */
  function FailOpen(keys: Keyspace, next: Downstream, calls: nat): (r: Outcome)
    ensures r.keys == keys && r.calls == calls
    ensures next.Responds? ==> r.reply == Passed(next.status, Disabled)
    ensures next.Raises? ==> r.reply == Escaped
  {
    match next
    case Responds(s) => Outcome(keys, Passed(s, Disabled), calls)
    case Raises => Outcome(keys, Escaped, calls)
  }

  /** `dispatch` as written. `redisUp` says whether the ping and the
      pipeline succeed; `first` and `second` are what the application does
      on its first and on a repeated run. The try block also covers the
      application's own run, so an application error sends the request
      through the except branch, which runs the application again. */
  function Dispatch(keys: Keyspace, key: string, now: int, limit: int, window: int,
                    redisUp: bool, first: Downstream, second: Downstream): (r: Outcome)
    ensures !redisUp ==> r == FailOpen(keys, first, 1)
    ensures redisUp ==> r.keys == Record(keys, key, now, window).keys
    ensures redisUp ==> (r.reply.TooMany? <==> Record(keys, key, now, window).count >= limit)
    ensures r.reply.TooMany? ==> r.reply == TooMany(limit, window) && r.calls == 0
    ensures r.reply.Passed? && r.reply.headers.Counted? ==>
      redisUp && first.Responds? && r.reply.status == first.status && r.calls == 1
    ensures redisUp && first.Responds? && !r.reply.TooMany? ==> r.reply.Passed? && r.reply.headers.Counted?
  {
    if !redisUp then FailOpen(keys, first, 1)
    else
      var rec := Record(keys, key, now, window);
      if rec.count >= limit then Outcome(rec.keys, TooMany(limit, window), 0)
      else match first
        case Responds(s) =>
          Outcome(rec.keys, Passed(s, Counted(limit, Max(0, limit - rec.count - 1), now + window)), 1)
        case Raises => FailOpen(rec.keys, second, 2)
  }

  function Max(a: int, b: int): (m: int)
    ensures m >= a && m >= b && (m == a || m == b)
  {
    if a >= b then a else b
  }

  /** A refused request is logged all the same, so a client that keeps
      sending keeps its window full. */
  lemma RefusedStillLogged(keys: Keyspace, key: string, now: int, limit: int, window: int,
                           first: Downstream, second: Downstream)
    requires window > 0
    ensures var r := Dispatch(keys, key, now, limit, window, true, first, second);
      key in r.keys && now in r.keys[key] && r.keys[key][now] == now
  {
  }

  /** Nothing scored inside `[0, now - window]` survives a request, and every
      other earlier entry does. */
  lemma WindowSlides(keys: Keyspace, key: string, now: int, limit: int, window: int,
                     first: Downstream, second: Downstream)
    requires window > 0
    ensures var r := Dispatch(keys, key, now, limit, window, true, first, second);
      (forall m :: m in r.keys[key] && m != now ==>
        m in LogOf(keys, key) && !(0 <= LogOf(keys, key)[m] <= now - window)) &&
      (forall m :: m in LogOf(keys, key) && !(0 <= LogOf(keys, key)[m] <= now - window) ==>
        m in r.keys[key])
  {
  }

  /** The remaining count is never clamped: a request that passes was
      counted below the limit, so remaining, the earlier count and this
      request add up to the limit. */
  lemma RemainingAddsUp(keys: Keyspace, key: string, now: int, limit: int, window: int,
                        first: Downstream, second: Downstream)
    requires first.Responds?
    ensures var r := Dispatch(keys, key, now, limit, window, true, first, second);
      r.reply.Passed? ==>
        r.reply.headers.Counted? &&
        r.reply.headers.remaining + Record(keys, key, now, window).count + 1 == limit &&
        r.reply.headers.remaining >= 0 &&
        r.reply.headers.reset == now + window
  {
  }

  /** Requests within one second share one log entry: logging the same
      second again leaves the keyspace as it was. */
  lemma SameSecondIdempotent(keys: Keyspace, key: string, now: int, window: int)
    ensures var once := Record(keys, key, now, window).keys;
      Record(once, key, now, window).keys == once
  {
    var once := Record(keys, key, now, window).keys;
    if window > 0 {
      var log := once[key];
      assert Purge(log, now - window)[now := now] == log;
    }
  }

  /** So from the second request of a second onwards, every request of that
      second sees the same count, at most one more than the first saw. */
  lemma SameSecondCountsOnce(keys: Keyspace, key: string, now: int, window: int)
    ensures var once := Record(keys, key, now, window);
      var twice := Record(once.keys, key, now, window);
      var thrice := Record(twice.keys, key, now, window);
      thrice.count == twice.count && twice.count <= once.count + 1
  {
    var once := Record(keys, key, now, window);
    SameSecondIdempotent(keys, key, now, window);
    if window > 0 {
      var p := Purge(LogOf(keys, key), now - window);
      var q := Purge(once.keys[key], now - window);
      assert q.Keys <= p.Keys + {now};
      CardSubset(q.Keys, p.Keys + {now});
      assert |q| == |q.Keys|;
    }
  }

  lemma CardSubset<T>(a: set<T>, b: set<T>)
    requires a <= b
    ensures |a| <= |b|
  {
    if a != {} {
      var x :| x in a;
      CardSubset(a - {x}, b - {x});
    }
  }

  /** An unreachable Redis lets every request through once, marked as
      unlimited, and leaves the keyspace alone. */
  lemma FailsOpen(keys: Keyspace, key: string, now: int, limit: int, window: int,
                  status: int, second: Downstream)
    ensures Dispatch(keys, key, now, limit, window, false, Responds(status), second) ==
      Outcome(keys, Passed(status, Disabled), 1)
  {
  }

  /** As written, an application that raises on a counted request is run a
      second time by the Redis fallback. */
  lemma FailingHandlerRunsTwice(keys: Keyspace, key: string, now: int, limit: int, window: int,
                                status: int)
    requires Record(keys, key, now, window).count < limit
    ensures Dispatch(keys, key, now, limit, window, true, Raises, Responds(status)).calls == 2
    ensures Dispatch(keys, key, now, limit, window, true, Raises, Responds(status)).reply == Passed(status, Disabled)
  {
  }

  /** The evidently intended dispatch: only the Redis calls fall back to the
      unlimited path, and an application error propagates after its one run. */
  function DispatchIntended(keys: Keyspace, key: string, now: int, limit: int, window: int,
                            redisUp: bool, next: Downstream): (r: Outcome)
    ensures r.calls <= 1
    ensures next.Raises? ==> r.reply.Escaped? || r.reply.TooMany?
  {
    if !redisUp then FailOpen(keys, next, 1)
    else
      var rec := Record(keys, key, now, window);
      if rec.count >= limit then Outcome(rec.keys, TooMany(limit, window), 0)
      else match next
        case Responds(s) =>
          Outcome(rec.keys, Passed(s, Counted(limit, Max(0, limit - rec.count - 1), now + window)), 1)
        case Raises => Outcome(rec.keys, Escaped, 1)
  }

  /** The two agree whenever the application does not raise. */
  lemma IntendedAgreesWhenHandlerSucceeds(keys: Keyspace, key: string, now: int, limit: int, window: int,
                                          redisUp: bool, status: int, second: Downstream)
    ensures DispatchIntended(keys, key, now, limit, window, redisUp, Responds(status)) ==
      Dispatch(keys, key, now, limit, window, redisUp, Responds(status), second)
  {
  }

  /** An empty log lets the first request of a client through whenever the
      limit is positive. */
  lemma FirstRequestPasses(key: string, now: int, limit: int, window: int, status: int)
    requires limit > 0
    ensures DispatchIntended(map[], key, now, limit, window, true, Responds(status)) ==
      Outcome(Record(map[], key, now, window).keys, Passed(status, Counted(limit, limit - 1, now + window)), 1)
  {
    assert Purge(LogOf(map[], key), now - window) == map[];
  }
}
