/**
 The cache service itself (src/datasources/cache/redis.cache.service.ts): each call sends its
 commands one after the other on the store it owns. The replies to the commands, and the text of
 the clock, are parameters. `V` is the type of the cached texts.
 */
module RedisCacheService {
  import opened Prelude
  import opened RedisStore
  import P = CacheProtocol

  datatype CacheDir = CacheDir(key: string, field: string)

  /** The replies to the HSET, the EXPIRE and the compensating HDEL of one `hSet`. */
  datatype Replies = Replies(hset: Reply, expire: Reply, hdel: Reply)

  /** `_prefixKey`. */
  function PrefixKey(prefix: string, key: string): string {
    if prefix == "" then key else prefix + "-" + key
  }

  lemma PrefixKeyInjective(prefix: string, a: string, b: string)
    ensures PrefixKey(prefix, a) == PrefixKey(prefix, b) ==> a == b
    ensures prefix != "" ==> PrefixKey(prefix, a) != a
  {
    if prefix != "" {
      assert |PrefixKey(prefix, a)| > |a|;
      assert PrefixKey(prefix, a)[|prefix| + 1..] == a && PrefixKey(prefix, b)[|prefix| + 1..] == b;
    }
  }

  /** The `hSet` of a value, as a whole: the store it leaves and whether it returns normally. */
  function HSetOutcome<V>(s: Store<V>, key: string, field: string, value: V, ttl: nat, replies: Replies): (Store<V>, bool) {
    var written := Under(replies.hset, s, HSet(s, key, field, value));
    var dated := Under(replies.expire, written, ExpireNx(written, key, ttl));
    if replies.hset == Done && replies.expire == Done then (dated, true)
    else
      var failed := if replies.hset == Done then dated else written;
      (Under(replies.hdel, failed, HDel(failed, key, field)), false)
  }

  class RedisCacheService<V> {
    var store: Store<V>
    const keyPrefix: string
    const defaultExpirationTimeInSeconds: int

    constructor (keyPrefix: string, defaultTtl: int, now: nat)
      ensures store == Store(now, map[], map[])
      ensures this.keyPrefix == keyPrefix && defaultExpirationTimeInSeconds == defaultTtl
    {
      this.keyPrefix := keyPrefix;
      this.defaultExpirationTimeInSeconds := defaultTtl;
      store := Store(now, map[], map[]);
    }

    /** A normal return leaves the value under its key with a deadline; an error return leaves the
        field absent unless the HDEL failed too. Nothing else of the store changes. */
    method HSet(dir: CacheDir, value: V, ttl: Option<int>, replies: Replies) returns (ok: bool)
      modifies this`store
      ensures ttl.None? || ttl.value <= 0 ==> ok && store == old(store)
      ensures ttl.Some? && ttl.value > 0 ==>
                (store, ok) == HSetOutcome(old(store), PrefixKey(keyPrefix, dir.key), dir.field, value, ttl.value, replies)
    {
      ok := true;
      if ttl.None? || ttl.value <= 0 {
        return;
      }
      var key := PrefixKey(keyPrefix, dir.key);
      store := Under(replies.hset, store, RedisStore.HSet(store, key, dir.field, value));
      if replies.hset == Done {
        store := Under(replies.expire, store, ExpireNx(store, key, ttl.value));
        if replies.expire == Done {
          return;
        }
      }
      store := Under(replies.hdel, store, HDel(store, key, dir.field));
      ok := false;
    }

    method HGet(dir: CacheDir) returns (value: Option<V>)
      ensures value.Some? <==> Has(store, PrefixKey(keyPrefix, dir.key), dir.field)
      ensures value.Some? ==> value.value == Get(store, PrefixKey(keyPrefix, dir.key), dir.field)
    {
      value := RedisStore.HGet(store, PrefixKey(keyPrefix, dir.key), dir.field);
    }

    /**
     * Nothing of the key survives an executed UNLINK; the stamp is written only after an answered
     * one. The stamp's `hSet` has a time limit of its own, past which (`inTime` is false) the call
     * rejects although its commands take effect all the same.
     */
    method DeleteByKey(key: string, nowText: V, unlink: Reply, stamp: Replies, inTime: bool) returns (ok: bool)
      modifies this`store
      ensures unlink != Done ==> !ok && store == Under(unlink, old(store), Unlink(old(store), PrefixKey(keyPrefix, key)))
      ensures unlink == Done && defaultExpirationTimeInSeconds > 0 ==>
                var (after, written) := HSetOutcome(Unlink(old(store), PrefixKey(keyPrefix, key)),
                                                    PrefixKey(keyPrefix, P.StampKey(key)), "", nowText,
                                                    defaultExpirationTimeInSeconds, stamp);
                store == after && (ok <==> written && inTime)
      ensures unlink == Done && defaultExpirationTimeInSeconds <= 0 ==>
                (ok <==> inTime) && store == Unlink(old(store), PrefixKey(keyPrefix, key))
      ensures unlink != Failed ==> forall f :: !Has(store, PrefixKey(keyPrefix, key), f)
    {
      if unlink == Done && defaultExpirationTimeInSeconds > 0 {
        StampElsewhere(Unlink(store, PrefixKey(keyPrefix, key)), keyPrefix, key, nowText, defaultExpirationTimeInSeconds, stamp);
      }
      var prefixed := PrefixKey(keyPrefix, key);
      store := Under(unlink, store, Unlink(store, prefixed));
      if unlink != Done {
        return false;
      }
      var written := HSet(CacheDir(P.StampKey(key), ""), nowText, Some(defaultExpirationTimeInSeconds), stamp);
      ok := written && inTime;
    }

    /** An executed transaction counts one more under the key as given (no prefix) and keeps a deadline
        it has; only an answered one tells the count. */
    method Increment(cacheKey: string, ttl: Option<int>, reply: Reply) returns (count: Option<int>)
      modifies this`store
      ensures store == Under(reply, old(store), IncrExpire(old(store), cacheKey, ttl))
      ensures count.Some? <==> reply == Done
      ensures count.Some? ==>
                && cacheKey in store.counters && count.value == store.counters[cacheKey].count
                && count.value == 1 + (if cacheKey in old(store).counters then old(store).counters[cacheKey].count else 0)
                && store.counters[cacheKey].deadline ==
                     if cacheKey in old(store).counters && old(store).counters[cacheKey].deadline != None then
                       old(store).counters[cacheKey].deadline
                     else if ttl != None && ttl.value > 0 then Some(store.now + 1000 * ttl.value)
                     else None
    {
      store := Under(reply, store, IncrExpire(store, cacheKey, ttl));
      count := if reply == Done then Some(store.counters[cacheKey].count) else None;
    }

    /** `Number(null)` is 0, so an absent counter reads as 0. */
    method GetCounter(key: string) returns (count: int)
      ensures count == CounterAt(store, PrefixKey(keyPrefix, key))
    {
      var prefixed := PrefixKey(keyPrefix, key);
      count := if prefixed in store.counters then store.counters[prefixed].count else 0;
    }
  }

  // ---- what a caller of `hSet` may rely on ----

  /**
   * A normal return leaves the value under its key, with a deadline: the one the key had, or the
   * given number of seconds from now. An error return leaves no value, unless the HDEL failed too.
   */
  lemma HSetContract<V>(s: Store<V>, key: string, field: string, value: V, ttl: nat, replies: Replies)
    ensures var (after, ok) := HSetOutcome(s, key, field, value, ttl, replies);
            && (ok ==> HGet(after, key, field) == Some(value) && after.hashes[key].deadline ==
                       if key in s.hashes && s.hashes[key].deadline.Some? then s.hashes[key].deadline
                       else Some(s.now + MS_PER_SECOND * ttl))
            && (!ok && replies.hdel != Failed ==> HGet(after, key, field) == None)
  {
  }

  /** The two stores agree but for one field of one key. */
  ghost predicate SameElsewhere<V>(a: Store<V>, b: Store<V>, key: string, field: string) {
    && (forall k, f :: k != key || f != field ==> HGet(a, k, f) == HGet(b, k, f))
    && a.counters == b.counters && a.now == b.now
  }

  /** Deadlines of `a` are still those of `b`. */
  ghost predicate KeepsDeadlines<V>(a: Store<V>, b: Store<V>) {
    forall k :: k in a.hashes && k in b.hashes && a.hashes[k].deadline.Some? ==> b.hashes[k].deadline == a.hashes[k].deadline
  }

  lemma HSetElsewhere<V>(s: Store<V>, key: string, field: string, value: V)
    ensures SameElsewhere(s, HSet(s, key, field, value), key, field)
    ensures KeepsDeadlines(s, HSet(s, key, field, value))
  {
  }

  lemma ExpireElsewhere<V>(s: Store<V>, key: string, field: string, seconds: nat)
    ensures SameElsewhere(s, ExpireNx(s, key, seconds), key, field)
    ensures KeepsDeadlines(s, ExpireNx(s, key, seconds)) && s.hashes.Keys == ExpireNx(s, key, seconds).hashes.Keys
  {
  }

  lemma HDelElsewhere<V>(s: Store<V>, key: string, field: string)
    ensures SameElsewhere(s, HDel(s, key, field), key, field)
    ensures KeepsDeadlines(s, HDel(s, key, field))
  {
    if Has(s, key, field) {
      var rest := s.hashes[key].fields - {field};
      forall f | f != field ensures HGet(HDel(s, key, field), key, f) == HGet(s, key, f) {
        assert f in s.hashes[key].fields <==> f in rest;
        assert rest == map[] ==> f !in rest;
      }
    }
  }

  /** Whatever the replies, `hSet` touches no other field, no counter, and no deadline already set. */
  lemma HSetTouchesNothingElse<V>(s: Store<V>, key: string, field: string, value: V, ttl: nat, replies: Replies)
    ensures var after := HSetOutcome(s, key, field, value, ttl, replies).0;
            SameElsewhere(s, after, key, field) && KeepsDeadlines(s, after)
  {
    var written := Under(replies.hset, s, HSet(s, key, field, value));
    HSetElsewhere(s, key, field, value);
    ExpireElsewhere(written, key, field, ttl);
    var dated := Under(replies.expire, written, ExpireNx(written, key, ttl));
    HDelElsewhere(if replies.hset == Done then dated else written, key, field);
  }

  /** Writing the stamp of a key does not bring anything back under the key. */
  lemma StampElsewhere<V>(s: Store<V>, prefix: string, key: string, value: V, ttl: int, replies: Replies)
    requires PrefixKey(prefix, key) !in s.hashes && ttl > 0
    ensures forall f :: !Has(HSetOutcome(s, PrefixKey(prefix, P.StampKey(key)), "", value, ttl, replies).0, PrefixKey(prefix, key), f)
  {
    var after := HSetOutcome(s, PrefixKey(prefix, P.StampKey(key)), "", value, ttl, replies).0;
    PrefixKeyInjective(prefix, key, P.StampKey(key));
    assert |P.StampKey(key)| != |key|;
    HSetTouchesNothingElse(s, PrefixKey(prefix, P.StampKey(key)), "", value, ttl, replies);
    forall f ensures !Has(after, PrefixKey(prefix, key), f) {
      assert HGet(after, PrefixKey(prefix, key), f) == HGet(s, PrefixKey(prefix, key), f);
    }
  }

  /** If every key had a deadline, every key still has one after an `hSet`, unless its HDEL failed. */
  lemma HSetLeavesNothingUndated<V>(s: Store<V>, key: string, field: string, value: V, ttl: nat, replies: Replies)
    requires Live(s) && ttl > 0
    requires forall k :: k in s.hashes ==> s.hashes[k].deadline.Some?
    requires replies.hdel != Failed
    ensures var after := HSetOutcome(s, key, field, value, ttl, replies).0;
            forall k :: k in after.hashes ==> after.hashes[k].deadline.Some?
  {
    var written := HSet(s, key, field, value);
    if key !in s.hashes {
      assert written.hashes[key].fields - {field} == map[];
    }
  }

  /** A process of the protocol that runs its `hSet` alone does what the call does as a whole. */
  lemma HSetAloneIsOutcome(s: P.State, pid: nat, replies: Replies, defaultTtl: int)
    requires pid in s.procs && s.procs[pid].Writing? && s.procs[pid].stage == P.ToSet
    ensures var w := s.procs[pid].w;
            var go := (r: Reply) => P.Step(pid, r, P.Body, true);
            var events := if replies.hset != Done then [go(replies.hset), go(replies.hdel)]
                          else if replies.expire != Done then [go(Done), go(replies.expire), go(replies.hdel)]
                          else [go(Done), go(Done)];
            var after := P.Run(s, events, defaultTtl);
            && pid in after.procs && after.procs[pid] == P.Finished
            && after.store == HSetOutcome(s.store, w.key, w.field, P.Stored(w.content, s.step), w.ttl, replies).0
  {
    var go := (r: Reply) => P.Step(pid, r, P.Body, true);
    if replies.hset != Done {
      TwoEvents(s, go(replies.hset), go(replies.hdel), defaultTtl);
    } else if replies.expire != Done {
      TwoEvents(s, go(Done), go(replies.expire), defaultTtl);
      P.RunSnoc(s, [go(Done), go(replies.expire)], go(replies.hdel), defaultTtl);
      assert [go(Done), go(replies.expire)] + [go(replies.hdel)] == [go(Done), go(replies.expire), go(replies.hdel)];
    } else {
      TwoEvents(s, go(Done), go(Done), defaultTtl);
    }
  }

  lemma TwoEvents(s: P.State, e: P.Event, f: P.Event, defaultTtl: int)
    ensures P.Run(s, [e, f], defaultTtl) == P.Apply(P.Apply(s, e, defaultTtl), f, defaultTtl)
  {
    P.RunSnoc(s, [e], f, defaultTtl);
    P.RunSnoc(s, [], e, defaultTtl);
    assert [] + [e] == [e] && [e] + [f] == [e, f];
  }

  /** The counter under a key, 0 when there is none. */
  function CounterAt<V>(store: Store<V>, key: string): int {
    if key in store.counters then store.counters[key].count else 0
  }

  /**
   * `getCounter` right after `increment` of the same key reads the count exactly when no key prefix
   * is configured; with a prefix it reads another counter, which the increment leaves alone.
   */
  method IncrementThenRead<V>(service: RedisCacheService<V>, key: string, ttl: Option<int>) returns (count: int, read: int)
    modifies service`store
    ensures count == CounterAt(old(service.store), key) + 1
    ensures service.keyPrefix == "" ==> read == count
    ensures service.keyPrefix != "" ==> read == CounterAt(old(service.store), PrefixKey(service.keyPrefix, key))
  {
    PrefixKeyInjective(service.keyPrefix, key, key);
    var counted := service.Increment(key, ttl, Done);
    count := counted.value;
    read := service.GetCounter(key);
  }
}
