/**
 Token prices, cache first (src/datasources/balances-api/coingecko-api.service.ts), for one chain and
 one fiat code. The provider's answer and the random part of a time-to-live are parameters.
 */
module Coingecko {
  import opened Prelude
  import C = Chains

  const MAX_BATCH_SIZE: nat := 100
  const NOT_FOUND_TTL_RANGE_SECONDS: nat := 600

  /** The record of one token: its price, or null. */
  datatype AssetPrice = AssetPrice(token: string, price: Option<real>)

  /** The provider's answer: a price, which may be null, for some of the tokens asked for. */
  type Prices = map<string, Option<real>>

  datatype Config = Config(highRefreshRateTokens: seq<string>, highRefreshRateTtl: int, notFoundTtl: int, pricesTtl: int)

  predicate PositiveTtls(c: Config) {
    c.highRefreshRateTtl > 0 && c.notFoundTtl > 0 && c.pricesTtl > 0
  }

  type Jitter = n: nat | n <= NOT_FOUND_TTL_RANGE_SECONDS

  /** A price that is present and not zero. */
  function ValidPrice(prices: Prices, token: string): Option<real> {
    if token in prices && prices[token].Some? && prices[token].value != 0.0 then prices[token] else None
  }

  /** A token refreshed often has its own time-to-live; among the others, one without a price that of the
      tokens not found, up to ten minutes more. */
  function GetTtl(c: Config, price: Option<real>, token: string, jitter: Jitter): (ttl: int)
    ensures token in c.highRefreshRateTokens ==> ttl == c.highRefreshRateTtl
    ensures token !in c.highRefreshRateTokens && price != None ==> ttl == c.pricesTtl
    ensures token !in c.highRefreshRateTokens && price == None ==> c.notFoundTtl <= ttl <= c.notFoundTtl + 600
  {
    if token in c.highRefreshRateTokens then c.highRefreshRateTtl
    else if price.None? then c.notFoundTtl + jitter
    else c.pricesTtl
  }

  function LowerAll(tokens: seq<string>): (l: seq<string>)
    ensures |l| == |tokens| && forall i :: 0 <= i < |l| ==> l[i] == Lower(tokens[i])
  {
    seq(|tokens|, i requires 0 <= i < |tokens| => Lower(tokens[i]))
  }

  function Tokens(records: seq<AssetPrice>): seq<string> {
    if records == [] then [] else Tokens(records[..|records| - 1]) + [records[|records| - 1].token]
  }

  lemma {:induction false} TokensAt(records: seq<AssetPrice>)
    ensures |Tokens(records)| == |records| && forall i :: 0 <= i < |records| ==> Tokens(records)[i] == records[i].token
    decreases |records|
  {
    if records != [] {
      TokensAt(records[..|records| - 1]);
    }
  }

  lemma {:induction false} TokensConcat(a: seq<AssetPrice>, b: seq<AssetPrice>)
    ensures Tokens(a + b) == Tokens(a) + Tokens(b)
    decreases |b|
  {
    if b == [] {
      assert a + b == a;
    } else {
      assert (a + b)[..|a + b| - 1] == a + b[..|b| - 1];
      TokensConcat(a, b[..|b| - 1]);
    }
  }

  /** lodash `difference`: the tokens not among `seen`, repetitions kept. */
  function Difference(tokens: seq<string>, seen: seq<string>): seq<string> {
    if tokens == [] then []
    else
      var last := tokens[|tokens| - 1];
      Difference(tokens[..|tokens| - 1], seen) + (if last in seen then [] else [last])
  }

  /** The cached tokens of a list, repetitions kept. */
  function Cached(tokens: seq<string>, cache: map<string, AssetPrice>): seq<string> {
    if tokens == [] then []
    else
      var last := tokens[|tokens| - 1];
      Cached(tokens[..|tokens| - 1], cache) + (if last in cache then [last] else [])
  }

  lemma {:induction false} CachedMembers(tokens: seq<string>, cache: map<string, AssetPrice>)
    ensures forall t :: t in Cached(tokens, cache) <==> t in tokens && t in cache
    decreases |tokens|
  {
    if tokens != [] {
      CachedMembers(tokens[..|tokens| - 1], cache);
      assert tokens == tokens[..|tokens| - 1] + [tokens[|tokens| - 1]];
    }
  }

  lemma {:induction false} DifferenceMembers(tokens: seq<string>, seen: seq<string>)
    ensures forall t :: t in Difference(tokens, seen) <==> t in tokens && t !in seen
    decreases |tokens|
  {
    if tokens != [] {
      DifferenceMembers(tokens[..|tokens| - 1], seen);
      assert tokens == tokens[..|tokens| - 1] + [tokens[|tokens| - 1]];
    }
  }

  /** Cached and missing tokens together are the tokens, each as often. */
  lemma {:induction false} CachedAndMissing(tokens: seq<string>, cache: map<string, AssetPrice>, seen: seq<string>)
    requires forall t :: t in tokens ==> (t in seen <==> t in cache)
    ensures multiset(Cached(tokens, cache)) + multiset(Difference(tokens, seen)) == multiset(tokens)
    decreases |tokens|
  {
    if tokens != [] {
      var rest, last := tokens[..|tokens| - 1], tokens[|tokens| - 1];
      assert tokens == rest + [last];
      CachedAndMissing(rest, cache, seen);
      assert last in tokens;
    }
  }

  /** What an `hSet` of a record comes to: written; or rejected, with the field removed, the record left
      behind, or nothing done. */
  datatype Write = Written | Undone | LeftBehind | NothingDone

  predicate AllWritten(writes: nat -> Write, n: nat) {
    forall i: nat :: i < n ==> writes(i) == Written
  }

  /** The tokens of a list that are not cached, in their order, repetitions kept. */
  ghost function Uncached(tokens: seq<string>, cache: map<string, AssetPrice>): seq<string> {
    C.Keep((t: string) => t !in cache, tokens)
  }

  lemma {:induction false} DifferenceIsUncached(tokens: seq<string>, seen: seq<string>, cache: map<string, AssetPrice>)
    requires forall t :: t in tokens ==> (t in seen <==> t in cache)
    ensures Difference(tokens, seen) == Uncached(tokens, cache)
    decreases |tokens|
  {
    if tokens != [] {
      var rest, last := tokens[..|tokens| - 1], tokens[|tokens| - 1];
      assert tokens == rest + [last];
      assert last in tokens;
      DifferenceIsUncached(rest, seen, cache);
    }
  }

  class CoingeckoApi {
    const config: Config
    /** The live price entries, by token. */
    var cache: map<string, AssetPrice>
    /** The batches requested from the provider. */
    var requests: seq<seq<string>>

    constructor (config: Config)
      ensures cache == map[] && requests == [] && this.config == config
    {
      this.config := config;
      cache, requests := map[], [];
    }

    /** Every entry is the record of its own token. */
    ghost predicate Valid()
      reads this
    {
      forall t :: t in cache ==> cache[t].token == t
    }

    method GetTokenPricesFromCache(tokenAddresses: seq<string>) returns (result: seq<AssetPrice>)
      requires Valid()
      ensures Tokens(result) == Cached(tokenAddresses, cache)
      ensures forall a :: a in result ==> a.token in cache && cache[a.token] == a
    {
      result := [];
      for i := 0 to |tokenAddresses|
        invariant Tokens(result) == Cached(tokenAddresses[..i], cache)
        invariant forall a :: a in result ==> a.token in cache && cache[a.token] == a
      {
        var token := tokenAddresses[i];
        assert tokenAddresses[..i + 1][..i] == tokenAddresses[..i];
        if token in cache {
          TokensConcat(result, [cache[token]]);
          assert [cache[token]][..0] == [];
          result := result + [cache[token]];
        }
      }
      assert tokenAddresses[..|tokenAddresses|] == tokenAddresses;
    }

    /** Only the first 100 tokens are asked for; every token gets a record, written to the cache. A
        rejected write rejects the call, with the other records written all the same. */
    method GetTokenPricesFromNetwork(tokenAddresses: seq<string>, answer: Option<Prices>, jitter: string -> Jitter, writes: nat -> Write)
      returns (result: Option<seq<AssetPrice>>)
      requires Valid()
      modifies this`cache, this`requests
      ensures Valid()
      ensures requests == old(requests) + [Batch(tokenAddresses)]
      ensures result.Some? ==> answer.Some?
      ensures result.None? ==> answer.None? || !AllWritten(writes, |tokenAddresses|)
      ensures answer.None? ==> cache == old(cache)
      ensures result.Some? ==> Tokens(result.value) == tokenAddresses
      ensures result.Some? ==> forall a :: a in result.value ==> a.price == ValidPrice(answer.value, a.token)
      ensures result.Some? ==> forall a, p :: a in result.value ==>
                (a.price == Some(p) <==> a.token in answer.value && answer.value[a.token] == Some(p) && p != 0.0)
      ensures forall t :: t !in tokenAddresses ==>
                (t in cache <==> t in old(cache)) && (t in cache ==> cache[t] == old(cache)[t])
      ensures answer.Some? ==> forall t :: t in tokenAddresses && t in cache ==>
                cache[t] == AssetPrice(t, ValidPrice(answer.value, t)) || (t in old(cache) && cache[t] == old(cache)[t])
      ensures result.Some? && PositiveTtls(config) ==>
                forall t :: t in tokenAddresses ==> t in cache && cache[t] == AssetPrice(t, ValidPrice(answer.value, t))
    {
      requests := requests + [Batch(tokenAddresses)];
      if answer.None? {
        return None;
      }
      var prices := answer.value;
      var mapped: seq<AssetPrice> := [];
      var ok := true;
      for i := 0 to |tokenAddresses|
        invariant Valid() && requests == old(requests) + [Batch(tokenAddresses)]
        invariant !ok ==> !AllWritten(writes, i)
        invariant Tokens(mapped) == tokenAddresses[..i]
        invariant forall a :: a in mapped ==> a.price == ValidPrice(prices, a.token)
        invariant forall t :: t !in tokenAddresses ==>
                    (t in cache <==> t in old(cache)) && (t in cache ==> cache[t] == old(cache)[t])
        invariant forall t :: t in tokenAddresses && t in cache ==>
                    cache[t] == AssetPrice(t, ValidPrice(prices, t)) || (t in old(cache) && cache[t] == old(cache)[t])
        invariant ok && PositiveTtls(config) ==>
                    forall t :: t in tokenAddresses[..i] ==> t in cache && cache[t] == AssetPrice(t, ValidPrice(prices, t))
      {
        var token := tokenAddresses[i];
        var price := AssetPrice(token, ValidPrice(prices, token));
        if GetTtl(config, price.price, token, jitter(token)) > 0 {
          var written := WriteRecord(price, writes(i));
          ok := ok && written;
        }
        TokensConcat(mapped, [price]);
        assert [price][..0] == [];
        mapped := mapped + [price];
        assert tokenAddresses[..i + 1] == tokenAddresses[..i] + [token];
      }
      assert tokenAddresses[..|tokenAddresses|] == tokenAddresses;
      return if ok then Some(mapped) else None;
    }

    method WriteRecord(price: AssetPrice, write: Write) returns (ok: bool)
      modifies this`cache
      ensures ok <==> write == Written
      ensures cache == match write
                       case Written => old(cache)[price.token := price]
                       case LeftBehind => old(cache)[price.token := price]
                       case Undone => old(cache) - {price.token}
                       case NothingDone => old(cache)
    {
      match write
      case Written => cache := cache[price.token := price]; ok := true;
      case LeftBehind => cache := cache[price.token := price]; ok := false;
      case Undone => cache := cache - {price.token}; ok := false;
      case NothingDone => ok := false;
    }

    /** The first tokens, as many as there are but at most 100. */
    static function Batch(tokens: seq<string>): (b: seq<string>)
      ensures b <= tokens && |b| == if |tokens| < 100 then |tokens| else 100
    {
      if |tokens| <= MAX_BATCH_SIZE then tokens else tokens[..MAX_BATCH_SIZE]
    }

    /**
     * A call succeeds unless the provider is needed and it, or a write of the cache, fails; it then
     * answers a record for every requested token, as often as it was requested: the cached one, or
     * the provider's price, or null. With positive times-to-live every answered record is in the
     * cache afterwards. No call, failed or not, loses or changes a record the cache had.
     */
    method GetTokenPrices(tokenAddresses: seq<string>, answer: Option<Prices>, jitter: string -> Jitter, writes: nat -> Write)
      returns (result: seq<AssetPrice>, ok: bool)
      requires Valid()
      modifies this`cache, this`requests
      ensures Valid()
      ensures !ok ==> result == [] && (answer.None? || !AllWritten(writes, |tokenAddresses|))
      ensures !ok && answer.None? ==> cache == old(cache)
      ensures ok ==> multiset(Tokens(result)) == multiset(LowerAll(tokenAddresses))
      ensures ok ==> forall a :: a in result ==>
                if a.token in old(cache) then a == old(cache)[a.token]
                else answer != None && forall p ::
                       a.price == Some(p) <==> a.token in answer.value && answer.value[a.token] == Some(p) && p != 0.0
      ensures (forall t :: t in LowerAll(tokenAddresses) ==> t in old(cache)) ==>
                ok && requests == old(requests) && cache == old(cache)
      ensures (exists t :: t in LowerAll(tokenAddresses) && t !in old(cache)) ==>
                requests == old(requests) + [Batch(Uncached(LowerAll(tokenAddresses), old(cache)))]
      ensures ok && PositiveTtls(config) ==> forall a :: a in result ==> a.token in cache && cache[a.token] == a
      ensures forall t :: t in old(cache) ==> t in cache && cache[t] == old(cache)[t]
    {
      var lower := LowerAll(tokenAddresses);
      var fromCache := GetTokenPricesFromCache(lower);
      var missing := Difference(lower, Tokens(fromCache));
      CachedMembers(lower, cache);
      DifferenceMembers(lower, Tokens(fromCache));
      DifferenceShorter(lower, Tokens(fromCache));
      DifferenceIsUncached(lower, Tokens(fromCache), cache);
      if missing == [] {
        assert forall t :: t in lower ==> t in cache;
        RecordsOfBoth(lower, cache, fromCache, [], missing);
        assert fromCache + [] == fromCache;
        return fromCache, true;
      }
      assert missing[0] in lower && missing[0] !in cache;
      ghost var before := cache;
      var fromNetwork := GetTokenPricesFromNetwork(missing, answer, jitter, writes);
      if fromNetwork.None? {
        return [], false;
      }
      RecordsOfBoth(lower, before, fromCache, fromNetwork.value, missing);
      CachedOrPriced(before, cache, fromCache, fromNetwork.value, missing, answer.value);
      result, ok := fromCache + fromNetwork.value, true;
    }
  }

  lemma {:induction false} DifferenceShorter(tokens: seq<string>, seen: seq<string>)
    ensures |Difference(tokens, seen)| <= |tokens|
    decreases |tokens|
  {
    if tokens != [] {
      DifferenceShorter(tokens[..|tokens| - 1], seen);
    }
  }

  /** Cached and network records together: every token as often as in the list, cached ones exactly when cached. */
  lemma RecordsOfBoth(lower: seq<string>, cache: map<string, AssetPrice>, fromCache: seq<AssetPrice>,
                      fromNetwork: seq<AssetPrice>, missing: seq<string>)
    requires Tokens(fromCache) == Cached(lower, cache) && Tokens(fromNetwork) == missing
    requires missing == Difference(lower, Tokens(fromCache))
    ensures multiset(Tokens(fromCache + fromNetwork)) == multiset(lower)
    ensures forall a :: a in fromCache ==> a.token in lower && a.token in cache
    ensures forall a :: a in fromNetwork ==> a.token in missing
    ensures forall t :: t in missing ==> t in lower && t !in cache
    ensures forall a :: a in fromCache + fromNetwork <==> a in fromCache || a in fromNetwork
  {
    CachedMembers(lower, cache);
    DifferenceMembers(lower, Tokens(fromCache));
    CachedAndMissing(lower, cache, Tokens(fromCache));
    TokensConcat(fromCache, fromNetwork);
    assert multiset(Tokens(fromCache) + missing) == multiset(Tokens(fromCache)) + multiset(missing);
    TokenIn(fromCache);
    TokenIn(fromNetwork);
  }

  /** Records of both kinds, and what the cache holds of them after the provider's were written. */
  lemma CachedOrPriced(before: map<string, AssetPrice>, after: map<string, AssetPrice>, fromCache: seq<AssetPrice>,
                       fromNetwork: seq<AssetPrice>, missing: seq<string>, prices: Prices)
    requires forall a :: a in fromCache ==> a.token in before && before[a.token] == a
    requires forall a :: a in fromNetwork ==> a.token in missing && a.price == ValidPrice(prices, a.token)
    requires forall t :: t in missing ==> t !in before
    requires forall t :: t !in missing ==> (t in after <==> t in before) && (t in after ==> after[t] == before[t])
    ensures forall t :: t in before ==> t in after && after[t] == before[t]
    ensures forall a :: a in fromCache + fromNetwork ==>
              if a.token in before then a == before[a.token]
              else forall p :: a.price == Some(p) <==> a.token in prices && prices[a.token] == Some(p) && p != 0.0
    ensures (forall t :: t in missing ==> t in after && after[t] == AssetPrice(t, ValidPrice(prices, t))) ==>
              forall a :: a in fromCache + fromNetwork ==> a.token in after && after[a.token] == a
  {
    forall a | a in fromCache + fromNetwork
      ensures if a.token in before then a in fromCache && a == before[a.token] else a in fromNetwork
    {
      assert a in fromCache || a in fromNetwork;
    }
  }

  lemma TokenIn(records: seq<AssetPrice>)
    ensures forall a :: a in records ==> a.token in Tokens(records)
  {
    TokensAt(records);
    forall a | a in records ensures a.token in Tokens(records) {
      var i :| 0 <= i < |records| && records[i] == a;
      assert Tokens(records)[i] == a.token;
    }
  }

  /** Null for every token outside the batch or without a price, when the provider answers only what it is asked. */
  lemma NullOutsideBatch(missing: seq<string>, answer: Prices, token: string)
    requires forall t :: t in answer ==> t in CoingeckoApi.Batch(missing)
    ensures token !in CoingeckoApi.Batch(missing) ==> ValidPrice(answer, token) == None
  {
  }

  /** A price call of somebody else, what the provider would answer it, and what its writes come to. */
  datatype PriceCall = PriceCall(tokens: seq<string>, answer: Option<Prices>, writes: nat -> Write)

  /**
   * After a successful call, while its entries live, and whatever other calls come in between, a
   * call on a sublist of its tokens asks the provider nothing and answers every token with the
   * record of the first call.
   */
  method LaterSublist(api: CoingeckoApi, tokens: seq<string>, answer: Option<Prices>, jitter: string -> Jitter, writes: nat -> Write,
                      between: seq<PriceCall>, sublist: seq<string>, lateAnswer: Option<Prices>, lateWrites: nat -> Write)
    returns (first: seq<AssetPrice>, second: seq<AssetPrice>, requests: nat, ok: bool)
    requires api.Valid() && PositiveTtls(api.config)
    requires forall t :: t in sublist ==> t in tokens
    modifies api`cache, api`requests
    ensures ok ==> requests == 0
    ensures ok ==> multiset(Tokens(second)) == multiset(LowerAll(sublist))
    ensures ok ==> forall a, b :: a in first && b in second && a.token == b.token ==> a == b
    ensures ok ==> forall b :: b in second ==> b in first
  {
    first, ok := api.GetTokenPrices(tokens, answer, jitter, writes);
    second, requests := [], 0;
    if ok {
      SublistAnswered(tokens, sublist, first);
      for i := 0 to |between|
        invariant api.Valid()
        invariant forall a :: a in first ==> a.token in api.cache && api.cache[a.token] == a
      {
        var _, _ := api.GetTokenPrices(between[i].tokens, between[i].answer, jitter, between[i].writes);
      }
      var before := |api.requests|;
      var late;
      second, late := api.GetTokenPrices(sublist, lateAnswer, jitter, lateWrites);
      requests := |api.requests| - before;
      OfTheList(second, sublist);
    }
  }

  /** A call on all the tokens has a record for each of a sublist. */
  lemma SublistAnswered(tokens: seq<string>, sublist: seq<string>, records: seq<AssetPrice>)
    requires forall t :: t in sublist ==> t in tokens
    requires multiset(Tokens(records)) == multiset(LowerAll(tokens))
    ensures forall t :: t in LowerAll(sublist) ==> exists a :: a in records && a.token == t
  {
    TokensAt(records);
    forall t | t in LowerAll(sublist) ensures exists a :: a in records && a.token == t {
      var i :| 0 <= i < |sublist| && LowerAll(sublist)[i] == t;
      assert sublist[i] in tokens;
      var j :| 0 <= j < |tokens| && tokens[j] == sublist[i];
      assert LowerAll(tokens)[j] == t;
      assert t in multiset(Tokens(records));
      var k :| 0 <= k < |Tokens(records)| && Tokens(records)[k] == t;
      assert records[k].token == t;
    }
  }

  lemma OfTheList(records: seq<AssetPrice>, tokens: seq<string>)
    requires multiset(Tokens(records)) == multiset(LowerAll(tokens))
    ensures forall a :: a in records ==> a.token in LowerAll(tokens)
  {
    TokenIn(records);
    forall a | a in records ensures a.token in LowerAll(tokens) {
      assert a.token in multiset(Tokens(records));
    }
  }
}
