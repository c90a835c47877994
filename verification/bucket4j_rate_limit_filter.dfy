/**
 * `Bucket4jRateLimitFilter`: one token bucket per client and path, created
 * on first use with a limit chosen by the path, and one token taken per
 * request. A request finding the bucket empty is answered 429 with a
 * `Retry-After` in whole seconds.
 *
 * The bucket is an abstract counter: how many tokens the greedy refill has
 * added since the bucket was last used, and how long an empty bucket needs
 * until its next token, are inputs (`refilled`, `waitNanos`) computed by the
 * library from the clock.
 */
module Bucket4jRateLimitFilter {
  import opened Wrappers
  import opened JavaText
  import opened Errors
  import opened HttpRequest
  import JF = JwtFilter

  /** `Bandwidth.classic(capacity, Refill.greedy(capacity, Duration.ofMinutes(minutes)))`. */
  datatype Bandwidth = Bandwidth(capacity: nat, minutes: nat)

  const StrictLimit: Bandwidth := Bandwidth(3, 10)
  const GeneralLimit: Bandwidth := Bandwidth(60, 15)

  /** The prefixes the filter tests, which lack the "/v1" every auth route has. */
  const LoginPrefixAsWritten: string := "/api/auth/login"
  const SignupPrefixAsWritten: string := "/api/auth/signup"

  /** `createNewBucket(path)` as written: strict only under "/api/auth/login" or "/api/auth/signup". */
  function CreateNewBucketAsWritten(path: string): (b: Bandwidth)
    ensures b == StrictLimit <==> StartsWith(path, LoginPrefixAsWritten) || StartsWith(path, SignupPrefixAsWritten)
    ensures b == StrictLimit || b == GeneralLimit
  {
    if StartsWith(path, LoginPrefixAsWritten) || StartsWith(path, SignupPrefixAsWritten) then StrictLimit
    else GeneralLimit
  }

  const VersionedApi: string := "/api/v1/"

  /**
   * As written, no versioned route gets the strict limit: the login and
   * signup endpoints, at "/api/v1/auth/login" and "/api/v1/auth/signup",
   * share the general 60-per-15-minutes budget of every other path.
   */
  lemma AsWrittenMissesVersionedRoutes(path: string)
    requires StartsWith(path, VersionedApi)
    ensures CreateNewBucketAsWritten(path) == GeneralLimit
  {
    assert path[5] == VersionedApi[5] == 'v';
    assert LoginPrefixAsWritten[5] == 'a' && SignupPrefixAsWritten[5] == 'a';
  }

  /** The limit for a path, with the prefixes of the routes the controller actually serves. */
  function CreateNewBucket(path: string): (b: Bandwidth)
    ensures b == StrictLimit <==> StartsWith(path, JF.LoginPath) || StartsWith(path, JF.SignupPath)
    ensures b == StrictLimit || b == GeneralLimit
  {
    if StartsWith(path, JF.LoginPath) || StartsWith(path, JF.SignupPath) then StrictLimit
    else GeneralLimit
  }

  /** With the served prefixes, the login and signup routes get three requests per ten minutes. */
  lemma LoginRouteGetsStrictLimit()
    ensures CreateNewBucket(JF.LoginPath) == StrictLimit && CreateNewBucket(JF.SignupPath) == StrictLimit
    ensures CreateNewBucketAsWritten(JF.LoginPath) == GeneralLimit && CreateNewBucketAsWritten(JF.SignupPath) == GeneralLimit
  {
    assert JF.LoginPath[..|JF.LoginPath|] == JF.LoginPath;
    assert JF.SignupPath[..|JF.SignupPath|] == JF.SignupPath;
    assert JF.LoginPath[..|VersionedApi|] == VersionedApi;
    assert JF.SignupPath[..|VersionedApi|] == VersionedApi;
    AsWrittenMissesVersionedRoutes(JF.LoginPath);
    AsWrittenMissesVersionedRoutes(JF.SignupPath);
  }

  /**
   * Which prefixes choose the strict limit: those the filter tests
   * (`AsWritten`, the program's behaviour) or those the controller serves.
   */
  datatype Routes = AsWritten | Served

  function LimitFor(routes: Routes, path: string): Bandwidth {
    match routes
    case AsWritten => CreateNewBucketAsWritten(path)
    case Served => CreateNewBucket(path)
  }

  const UnknownAgent: string := "unknown-agent"

  /** The user agent part of the key. */
  function Agent(req: Request): string {
    if req.userAgent.Some? then req.userAgent.value else UnknownAgent
  }

  /**
   * `getClientKey`: the first comma field of X-Forwarded-For, trimmed,
   * whenever the header is present (even empty), else the remote address;
   * then "|" and the user agent, "unknown-agent" when absent. A header made
   * only of commas makes the split empty and indexing it throws.
   */
  function ClientKey(req: Request): (r: Result<string, Exception>)
    ensures r.Err? <==> req.forwardedFor.Some? && OnlyCommas(req.forwardedFor.value)
    ensures r.Err? ==> r.error == IndexOutOfBounds(EmptyArrayIndexMessage)
    ensures r.Ok? && req.forwardedFor.None? ==> r.value == req.remoteAddr + "|" + Agent(req)
    ensures r.Ok? && req.forwardedFor.Some? ==>
      r.value == Trim(SplitFirstField(req.forwardedFor.value).value) + "|" + Agent(req)
  {
    var ip :- match req.forwardedFor
      case None => Ok(req.remoteAddr)
      case Some(xfwd) =>
        match SplitFirstField(xfwd)
        case None => Err(IndexOutOfBounds(EmptyArrayIndexMessage))
        case Some(first) => Ok(Trim(first));
    Ok(ip + "|" + Agent(req))
  }

  /** The cache key `resolveBucket` uses. */
  function BucketKey(clientKey: string, path: string): string {
    clientKey + ":" + path
  }

  /** One client's buckets for two different paths are distinct. */
  lemma PathsGetSeparateBuckets(clientKey: string, path1: string, path2: string)
    requires path1 != path2
    ensures BucketKey(clientKey, path1) != BucketKey(clientKey, path2)
  {
    var p := clientKey + ":";
    assert (p + path1)[|p|..] == path1 && (p + path2)[|p|..] == path2;
  }

  /**
   * The cache key is not injective: a user agent and a path containing ':'
   * can make two different clients share one bucket.
   */
  lemma BucketKeyCollision()
    ensures BucketKey("1.2.3.4|a:/x", "/y") == BucketKey("1.2.3.4|a", "/x:/y")
  {
  }

  /** A single trimmed hop in X-Forwarded-For is the address part of the key as it is. */
  lemma SingleHopKey(req: Request, hop: string)
    requires ',' !in hop
    requires |hop| > 0 ==> !IsTrimmable(hop[0]) && !IsTrimmable(hop[|hop| - 1])
    ensures ClientKey(req.(forwardedFor := Some(hop))) == Ok(hop + "|" + Agent(req))
  {
    TrimOfTrimmed(hop);
    SplitWithoutComma(hop);
    var r := req.(forwardedFor := Some(hop));
    assert ClientKey(r).Ok?;
  }

  /** The address part of a bucket key is recovered from the key. */
  lemma HopsGiveDistinctKeys(hop1: string, hop2: string, agent: string, path: string)
    requires hop1 != hop2
    ensures BucketKey(hop1 + "|" + agent, path) != BucketKey(hop2 + "|" + agent, path)
  {
    var tail := "|" + agent + ":" + path;
    assert BucketKey(hop1 + "|" + agent, path) == hop1 + tail;
    assert BucketKey(hop2 + "|" + agent, path) == hop2 + tail;
    assert (hop1 + tail)[..|hop1|] == hop1;
  }

  /**
   * The client's address is taken from X-Forwarded-For unchecked, so a client
   * that sends a different first hop on each request gets a different bucket
   * each time.
   */
  lemma ForwardedForChoosesBucket(req: Request, hop1: string, hop2: string)
    requires hop1 != hop2 && ',' !in hop1 && ',' !in hop2
    requires |hop1| > 0 ==> !IsTrimmable(hop1[0]) && !IsTrimmable(hop1[|hop1| - 1])
    requires |hop2| > 0 ==> !IsTrimmable(hop2[0]) && !IsTrimmable(hop2[|hop2| - 1])
    ensures ClientKey(req.(forwardedFor := Some(hop1))).Ok? && ClientKey(req.(forwardedFor := Some(hop2))).Ok?
    ensures BucketKey(ClientKey(req.(forwardedFor := Some(hop1))).value, req.path) !=
            BucketKey(ClientKey(req.(forwardedFor := Some(hop2))).value, req.path)
  {
    SingleHopKey(req, hop1);
    SingleHopKey(req, hop2);
    HopsGiveDistinctKeys(hop1, hop2, Agent(req), req.path);
  }

  /** A bucket: its limit and the tokens it holds. */
  datatype Bucket = Bucket(limit: Bandwidth, available: nat)

  predicate WellFormed(b: Bucket) {
    b.available <= b.limit.capacity
  }

  /** `tryConsumeAndReturnRemaining(1)`. */
  datatype Probe = Consumed(remaining: nat) | NotConsumed(nanosToWait: nat)

  /** What the filter answers. */
  datatype Admission =
    | Admitted(remaining: nat)       // X-Rate-Limit-Remaining set, the chain runs
    | TooManyRequests(retryAfter: nat) // 429, Retry-After, body "Too many requests"

  const NanosPerSecond: nat := 1_000_000_000
  const TooManyRequestsStatus: int := 429
  const TooManyRequestsText: string := "Too many requests"

  type Cache = map<string, Bucket>

  predicate CacheWellFormed(cache: Cache) {
    forall k :: k in cache ==> WellFormed(cache[k])
  }

  /** A full bucket with the limit `createNewBucket` picks for the path. */
  function NewBucket(routes: Routes, path: string): Bucket {
    Bucket(LimitFor(routes, path), LimitFor(routes, path).capacity)
  }

  /**
   * `resolveBucket`: the cached bucket, or a new full one with the limit for
   * the path, which is then cached.
   */
  function ResolveBucket(routes: Routes, cache: Cache, key: string, path: string): (r: (Bucket, Cache))
    ensures key in cache ==> r.0 == cache[key] && r.1 == cache
    ensures key !in cache ==> r.0.available == r.0.limit.capacity
    ensures key !in cache && routes == AsWritten ==> r.0.limit == CreateNewBucketAsWritten(path)
    ensures key !in cache && routes == Served ==> r.0.limit == CreateNewBucket(path)
    ensures r.1 == cache[key := r.0]
  {
    if key in cache then (cache[key], cache)
    else
      var b := NewBucket(routes, path);
      (b, cache[key := b])
  }

  /** The tokens a bucket holds after the greedy refill, which never passes the capacity. */
  function Level(b: Bucket, refilled: nat): nat {
    if b.available + refilled < b.limit.capacity then b.available + refilled else b.limit.capacity
  }

  /** The bucket after the refill, capped at the capacity, then one token taken if there is one. */
  function TryConsume(b: Bucket, refilled: nat, waitNanos: nat): (r: (Probe, Bucket))
    ensures r.1.limit == b.limit && WellFormed(r.1)
    ensures var level := if b.available + refilled < b.limit.capacity then b.available + refilled else b.limit.capacity;
      (r.0.Consumed? <==> level >= 1) &&
      (r.0.Consumed? ==> r.0.remaining == level - 1 && r.1.available == level - 1) &&
      (r.0.NotConsumed? ==> r.0.nanosToWait == waitNanos && r.1.available == level)
  {
    var level := Level(b, refilled);
    if level >= 1 then (Consumed(level - 1), b.(available := level - 1))
    else (NotConsumed(waitNanos), b.(available := level))
  }

  /**
   * `doFilterInternal`. Building the client key can throw, which ends the
   * request with the exception. Otherwise the request's bucket is resolved and
   * one token taken: the request is admitted exactly when the refilled bucket
   * holds a token, and refused with the wait rounded down to whole seconds
   * otherwise. `routes` is `AsWritten` for the program as it stands.
   */
  function DoFilter(routes: Routes, cache: Cache, req: Request, refilled: nat, waitNanos: nat)
    : (r: Result<(Admission, Cache), Exception>)
    ensures r.Err? <==> ClientKey(req).Err?
    ensures r.Ok? ==> var key := BucketKey(ClientKey(req).value, req.path);
      var cache' := r.value.1;
      cache'.Keys == cache.Keys + {key} &&
      (forall k :: k in cache && k != key ==> cache'[k] == cache[k]) &&
      (key in cache ==> cache'[key].limit == cache[key].limit) &&
      (key !in cache && routes == AsWritten ==> cache'[key].limit == CreateNewBucketAsWritten(req.path)) &&
      (key !in cache && routes == Served ==> cache'[key].limit == CreateNewBucket(req.path))
    ensures r.Ok? ==> var key := BucketKey(ClientKey(req).value, req.path);
      var held := if key in cache then cache[key].available else r.value.1[key].limit.capacity;
      var level := if held + refilled < r.value.1[key].limit.capacity then held + refilled else r.value.1[key].limit.capacity;
      (r.value.0.Admitted? <==> level >= 1) &&
      (r.value.0.Admitted? ==> r.value.0.remaining == level - 1 && r.value.1[key].available == level - 1) &&
      (r.value.0.TooManyRequests? ==> r.value.1[key].available == level)
    ensures r.Ok? && r.value.0.TooManyRequests? ==>
      r.value.0.retryAfter * NanosPerSecond <= waitNanos < (r.value.0.retryAfter + 1) * NanosPerSecond
    ensures r.Ok? && CacheWellFormed(cache) ==> CacheWellFormed(r.value.1)
  {
    var clientKey :- ClientKey(req);
    var key := BucketKey(clientKey, req.path);
    var (bucket, cache1) := ResolveBucket(routes, cache, key, req.path);
    var (probe, bucket') := TryConsume(bucket, refilled, waitNanos);
    var cache' := cache1[key := bucket'];
    match probe
    case Consumed(remaining) => Ok((Admitted(remaining), cache'))
    case NotConsumed(nanos) => Ok((TooManyRequests(nanos / NanosPerSecond), cache'))
  }

  /** `n` requests from the same client to the same path with no refill in between. */
  function Burst(routes: Routes, cache: Cache, req: Request, n: nat): (r: Cache)
    requires ClientKey(req).Ok?
    decreases n
  {
    if n == 0 then cache else DoFilter(routes, Burst(routes, cache, req, n - 1), req, 0, 0).value.1
  }

  /**
   * Without refill, a client's fresh bucket for a path holds the path's
   * capacity minus the requests made so far.
   */
  lemma {:induction false} BurstDrainsBucket(routes: Routes, cache: Cache, req: Request, n: nat)
    requires ClientKey(req).Ok? && BucketKey(ClientKey(req).value, req.path) !in cache
    requires 0 < n <= LimitFor(routes, req.path).capacity
    ensures var key := BucketKey(ClientKey(req).value, req.path);
      key in Burst(routes, cache, req, n) &&
      Burst(routes, cache, req, n)[key] == Bucket(LimitFor(routes, req.path), LimitFor(routes, req.path).capacity - n)
  {
    if n > 1 {
      BurstDrainsBucket(routes, cache, req, n - 1);
    }
  }

  /**
   * With no refill, a fresh bucket admits exactly its capacity: the k-th
   * request is told k - 1 fewer tokens remain, and the next one gets a 429.
   */
  lemma FreshBucketAdmitsCapacity(routes: Routes, cache: Cache, req: Request, k: nat)
    requires ClientKey(req).Ok? && BucketKey(ClientKey(req).value, req.path) !in cache
    requires k <= LimitFor(routes, req.path).capacity
    ensures k < LimitFor(routes, req.path).capacity ==>
      DoFilter(routes, Burst(routes, cache, req, k), req, 0, 0).value.0 == Admitted(LimitFor(routes, req.path).capacity - k - 1)
    ensures k == LimitFor(routes, req.path).capacity ==>
      DoFilter(routes, Burst(routes, cache, req, k), req, 0, 0).value.0 == TooManyRequests(0)
  {
    var key := BucketKey(ClientKey(req).value, req.path);
    var limit := LimitFor(routes, req.path);
    if k > 0 {
      BurstDrainsBucket(routes, cache, req, k);
    }
    StepWithoutRefill(routes, Burst(routes, cache, req, k), req, limit.capacity - k);
  }

  /** With no refill, a request finding `held` tokens is admitted with one fewer left, or refused at once when there are none. */
  lemma StepWithoutRefill(routes: Routes, cache: Cache, req: Request, held: nat)
    requires ClientKey(req).Ok?
    requires var key := BucketKey(ClientKey(req).value, req.path);
      if key in cache then cache[key].available == held && held <= cache[key].limit.capacity
      else held == LimitFor(routes, req.path).capacity
    ensures DoFilter(routes, cache, req, 0, 0).value.0 == if held >= 1 then Admitted(held - 1) else TooManyRequests(0)
  {
    var key := BucketKey(ClientKey(req).value, req.path);
    var (bucket, _) := ResolveBucket(routes, cache, key, req.path);
    assert bucket.available == held && held <= bucket.limit.capacity;
    assert Level(bucket, 0) == held;
  }

  /**
   * A client's fourth login in a row, with no refill: the filter as written
   * admits it from the general 60-token bucket and reports 56 tokens left;
   * with the served prefixes the strict bucket is empty and it gets a 429.
   */
  lemma FourthLoginAdmittedAsWritten(req: Request)
    requires req.path == JF.LoginPath && ClientKey(req).Ok?
    ensures DoFilter(AsWritten, Burst(AsWritten, map[], req, 3), req, 0, 0).value.0 == Admitted(56)
    ensures DoFilter(Served, Burst(Served, map[], req, 3), req, 0, 0).value.0 == TooManyRequests(0)
  {
    LoginRouteGetsStrictLimit();
    FreshBucketAdmitsCapacity(AsWritten, map[], req, 3);
    FreshBucketAdmitsCapacity(Served, map[], req, 3);
  }
}
