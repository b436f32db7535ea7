/**
 Cache-first reads (src/datasources/cache/cache.first.data.source.ts) as one caller sees them, on the
 cache service: a lookup, the network request, the check against the invalidation time, the write.
 What the network answers, what the cache commands answer, and what everybody else has done to the
 store while the request was out are parameters.
 */
module CacheFirstDataSource {
  import opened Prelude
  import opened RedisStore
  import opened RedisCacheService
  import P = CacheProtocol

  /** A cached text: a response body, a 404, or an invalidation time. */
  datatype Text = Body(body: string) | NotFoundText | InvalidationTime(ms: nat)

  datatype Response = Data(body: string) | Status404 | OtherError

  datatype Error = NotFound | Network | Cache

  type Answer = Result<string, Error>

  /** What `hGet` finds of the key's invalidation time. */
  function StampIn(store: Store<Text>, prefix: string, key: string): Option<Text> {
    RedisStore.HGet(store, PrefixKey(prefix, P.StampKey(key)), "")
  }

  /** What a cached text means to a reader. */
  function FromCached(text: Text): Answer {
    match text
    case Body(body) => Ok(body)
    case NotFoundText => Err(NotFound)
    case InvalidationTime(_) => Err(Cache)
  }

  class CacheFirstDataSource {
    const cacheService: RedisCacheService<Text>

    constructor (cacheService: RedisCacheService<Text>)
      ensures this.cacheService == cacheService
    {
      this.cacheService := cacheService;
    }

    /**
     * `meanwhile` is the store once the network has answered.
     *
     * A hit answers from the cache and touches nothing. A miss writes at most the one entry: a body
     * if and only if no invalidation time is found or the one found is older than the request; a
     * 404 always. The answer is the network's, unless a cache command fails: a lookup of the entry or of
     * the invalidation time that is not answered rejects the call, and nothing is written.
     */
    method Get(dir: CacheDir, ttl: Option<int>, notFoundTtl: int, lookup: bool, meanwhile: Store<Text>, response: Response,
               stampLookup: bool, replies: Replies)
      returns (answer: Answer)
      modifies cacheService`store
      ensures !lookup ==> answer == Err(Cache) && cacheService.store == old(cacheService.store)
      ensures var key := PrefixKey(cacheService.keyPrefix, dir.key);
              var started := old(cacheService.store).now;
              var after := cacheService.store;
              if !lookup then true
              else if Has(old(cacheService.store), key, dir.field) then
                after == old(cacheService.store) && answer == FromCached(RedisStore.Get(after, key, dir.field))
              else
                && (answer.Err? && answer.error == Cache ==>
                      replies.hset != Done || replies.expire != Done || (response.Data? && !stampLookup))
                && (response.OtherError? ==> after == meanwhile && answer == Err(Network))
                && (response.Data? && !stampLookup ==> after == meanwhile && answer == Err(Cache))
                && (response.Data? && stampLookup ==>
                      && (answer.Ok? ==> answer.value == response.body)
                      && var stamp := StampIn(meanwhile, cacheService.keyPrefix, dir.key);
                         if stamp == None || (exists ms: nat :: stamp == Some(InvalidationTime(ms)) && ms < started) then
                           Wrote(after, answer.Ok?, meanwhile, key, dir.field, Body(response.body), ttl, replies)
                         else after == meanwhile && answer.Ok?)
                && (response.Status404? ==>
                      answer.Err? && Wrote(after, answer.error == NotFound, meanwhile, key, dir.field, NotFoundText, Some(notFoundTtl), replies))
    {
      if !lookup {
        return Err(Cache);
      }
      var cached := cacheService.HGet(dir);
      if cached.Some? {
        return FromCached(cached.value);
      }
      var startTimeMs := cacheService.store.now;
      cacheService.store := meanwhile;
      match response {
        case Data(body) =>
          if !stampLookup {
            return Err(Cache);
          }
          var stamp := cacheService.HGet(CacheDir(P.StampKey(dir.key), ""));
          var shouldBeCached := stamp.None? || (stamp.value.InvalidationTime? && stamp.value.ms < startTimeMs);
          if shouldBeCached {
            var ok := cacheService.HSet(dir, Body(body), ttl, replies);
            if !ok {
              return Err(Cache);
            }
          }
          answer := Ok(body);
        case Status404 =>
          var ok := cacheService.HSet(dir, NotFoundText, Some(notFoundTtl), replies);
          answer := Err(if ok then NotFound else Cache);
        case OtherError =>
          answer := Err(Network);
      }
    }
  }

  /** What an `hSet` did: nothing without a positive time-to-live, otherwise its outcome. */
  ghost predicate Wrote(after: Store<Text>, ok: bool, before: Store<Text>, key: string, field: string, text: Text,
                        ttl: Option<int>, replies: Replies)
  {
    if ttl.None? || ttl.value <= 0 then ok && after == before
    else (after, ok) == HSetOutcome(before, key, field, text, ttl.value, replies)
  }

  /**
   * An invalidation that completes while the request is out wins: the late body is answered but
   * not cached, whatever the cache commands would have answered.
   */
  method InvalidatedMeanwhile(source: CacheFirstDataSource, dir: CacheDir, ttl: Option<int>, notFoundTtl: int,
                              stamped: Store<Text>, ms: nat, body: string, replies: Replies) returns (answer: Answer)
    requires !Has(source.cacheService.store, PrefixKey(source.cacheService.keyPrefix, dir.key), dir.field)
    requires StampIn(stamped, source.cacheService.keyPrefix, dir.key) == Some(InvalidationTime(ms))
    requires ms >= source.cacheService.store.now
    modifies source.cacheService`store
    ensures answer == Ok(body) && source.cacheService.store == stamped
  {
    answer := source.Get(dir, ttl, notFoundTtl, true, stamped, Data(body), true, replies);
  }

  /**
   * A miss nobody interferes with, every command going through: afterwards the body is under its
   * key if and only if there is no invalidation time or it is strictly before the request's start.
   */
  method CachedIffNewer(source: CacheFirstDataSource, dir: CacheDir, ttl: int, notFoundTtl: int, body: string) returns (answer: Answer)
    requires ttl > 0
    requires !Has(source.cacheService.store, PrefixKey(source.cacheService.keyPrefix, dir.key), dir.field)
    modifies source.cacheService`store
    ensures answer == Ok(body)
    ensures var prefix := source.cacheService.keyPrefix;
            var stamp := StampIn(old(source.cacheService.store), prefix, dir.key);
            var found := RedisStore.HGet(source.cacheService.store, PrefixKey(prefix, dir.key), dir.field);
            && (stamp == None ==> found == Some(Body(body)))
            && (forall ms: nat :: stamp == Some(InvalidationTime(ms)) ==>
                  found == if ms < old(source.cacheService.store).now then Some(Body(body)) else None)
  {
    answer := source.Get(dir, Some(ttl), notFoundTtl, true, source.cacheService.store, Data(body), true, Replies(Done, Done, Done));
  }

  /**
   * What was answered is remembered: when the commands of the first call go through and nobody
   * interferes, a second call answers the same, body or 404, whatever the network says by then.
   * A body needs a store without an invalidation time of the key, or with an older one.
   */
  method GetTwice(source: CacheFirstDataSource, dir: CacheDir, ttl: int, notFoundTtl: int,
                  response: Response, later: Response, stampLookup: bool, replies: Replies) returns (first: Answer, second: Answer)
    requires ttl > 0 && notFoundTtl > 0 && !response.OtherError?
    requires response.Data? ==>
               var stamp := StampIn(source.cacheService.store, source.cacheService.keyPrefix, dir.key);
               stamp == None || exists ms: nat :: stamp == Some(InvalidationTime(ms)) && ms < source.cacheService.store.now
    modifies source.cacheService`store
    ensures first == second
  {
    ghost var key := PrefixKey(source.cacheService.keyPrefix, dir.key);
    var done := Replies(Done, Done, Done);
    first := source.Get(dir, Some(ttl), notFoundTtl, true, source.cacheService.store, response, true, done);
    assert Has(source.cacheService.store, key, dir.field);
    second := source.Get(dir, Some(ttl), notFoundTtl, true, source.cacheService.store, later, stampLookup, replies);
  }
}
