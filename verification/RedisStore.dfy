/**
 The Redis commands the cache service sends, each one atomic, on a store of hashes and counters.
 Time is in milliseconds; a key whose deadline has been reached is gone. As in Redis, a hash
 with no fields does not exist.
 */
module RedisStore {
  import opened Prelude

  datatype Hash<+V> = Hash(fields: map<string, V>, deadline: Option<nat>)

  datatype Counter = Counter(count: int, deadline: Option<nat>)

  datatype Store<+V> = Store(now: nat, hashes: map<string, Hash<V>>, counters: map<string, Counter>)

  /** What became of a command: executed and answered, executed but reported as an error (a timeout), or not executed. */
  datatype Reply = Done | Lost | Failed

  const MS_PER_SECOND: nat := 1000

  predicate Has<V>(s: Store<V>, key: string, field: string) {
    key in s.hashes && field in s.hashes[key].fields
  }

  function Get<V>(s: Store<V>, key: string, field: string): V
    requires Has(s, key, field)
  {
    s.hashes[key].fields[field]
  }

  /** Every key is live: no deadline reached, no empty hash. */
  ghost predicate Live<V>(s: Store<V>) {
    && (forall k :: k in s.hashes ==> s.hashes[k].fields.Keys != {} && !Reached(s.hashes[k].deadline, s.now))
    && (forall k :: k in s.counters ==> !Reached(s.counters[k].deadline, s.now))
  }

  predicate Reached(deadline: Option<nat>, now: nat) {
    deadline.Some? && deadline.value <= now
  }

  function HGet<V>(s: Store<V>, key: string, field: string): Option<V> {
    if Has(s, key, field) then Some(Get(s, key, field)) else None
  }

  function HSet<V>(s: Store<V>, key: string, field: string, value: V): Store<V> {
    var hash := if key in s.hashes then s.hashes[key] else Hash(map[], None);
    s.(hashes := s.hashes[key := hash.(fields := hash.fields[field := value])])
  }

  /** EXPIRE key seconds NX. */
  function ExpireNx<V>(s: Store<V>, key: string, seconds: nat): Store<V> {
    if key in s.hashes && s.hashes[key].deadline.None? then
      s.(hashes := s.hashes[key := s.hashes[key].(deadline := Some(s.now + MS_PER_SECOND * seconds))])
    else s
  }

  function HDel<V>(s: Store<V>, key: string, field: string): Store<V> {
    if !Has(s, key, field) then s
    else
      var rest := s.hashes[key].fields - {field};
      if rest == map[] then s.(hashes := s.hashes - {key})
      else s.(hashes := s.hashes[key := s.hashes[key].(fields := rest)])
  }

  function Unlink<V>(s: Store<V>, key: string): Store<V> {
    s.(hashes := s.hashes - {key}, counters := s.counters - {key})
  }

  /** MULTI; INCR key; EXPIRE key seconds NX (when a positive number of seconds is given); EXEC. */
  function IncrExpire<V>(s: Store<V>, key: string, seconds: Option<int>): Store<V> {
    var prior := if key in s.counters then s.counters[key] else Counter(0, None);
    var deadline :=
      if seconds.Some? && seconds.value > 0 && prior.deadline.None? then Some(s.now + MS_PER_SECOND * seconds.value)
      else prior.deadline;
    s.(counters := s.counters[key := Counter(prior.count + 1, deadline)])
  }

  /** The clock moves on and the keys whose deadline it reaches disappear. */
  function Advance<V>(s: Store<V>, ms: nat): Store<V> {
    var now := s.now + ms;
    Store(now,
          map k | k in s.hashes && !Reached(s.hashes[k].deadline, now) :: s.hashes[k],
          map k | k in s.counters && !Reached(s.counters[k].deadline, now) :: s.counters[k])
  }

  /** The effect of one command under a given reply. */
  function Under<V>(reply: Reply, before: Store<V>, after: Store<V>): Store<V> {
    if reply == Failed then before else after
  }

  lemma CommandsKeepStoreLive<V>(s: Store<V>, key: string, field: string, value: V, seconds: nat)
    requires Live(s) && seconds > 0
    ensures Live(HSet(s, key, field, value)) && Live(ExpireNx(s, key, seconds))
    ensures Live(Unlink(s, key)) && Live(IncrExpire(s, key, Some(seconds)))
  {
    assert field in HSet(s, key, field, value).hashes[key].fields.Keys;
  }

  lemma AdvanceKeepsStoreLive<V>(s: Store<V>, ms: nat)
    requires Live(s)
    ensures Live(Advance(s, ms))
  {
  }

  lemma HDelKeepsStoreLive<V>(s: Store<V>, key: string, field: string)
    requires Live(s)
    ensures Live(HDel(s, key, field))
  {
    if Has(s, key, field) {
      var rest := s.hashes[key].fields - {field};
      assert rest.Keys == {} ==> rest == map[];
    }
  }
}
