/**
 The relay limit (src/domain/relay/relay.repository.ts) and the counters it keeps in the cache
 (src/datasources/relay-api/gelato-api.service.ts), for one chain.
 */
module Relay {
  import opened Prelude
  import opened RedisStore
  import R = RedisCacheService

  type Address(==, !new) = string

  function CountOf(counts: map<Address, int>, a: Address): int {
    if a in counts then counts[a] else 0
  }

  /** How often `a` occurs in a list of charged addresses. */
  function Times(a: Address, addresses: seq<Address>): nat {
    if addresses == [] then 0
    else Times(a, addresses[..|addresses| - 1]) + (if addresses[|addresses| - 1] == a then 1 else 0)
  }

  /** The counts after `addresses` have each been incremented, in turn. */
  function Charge(counts: map<Address, int>, addresses: seq<Address>): map<Address, int> {
    if addresses == [] then counts
    else
      var before := Charge(counts, addresses[..|addresses| - 1]);
      var a := addresses[|addresses| - 1];
      before[a := CountOf(before, a) + 1]
  }

  lemma {:induction false} ChargeAddsTimes(counts: map<Address, int>, addresses: seq<Address>, a: Address)
    ensures CountOf(Charge(counts, addresses), a) == CountOf(counts, a) + Times(a, addresses)
    ensures a in Charge(counts, addresses) <==> a in counts || a in addresses
    decreases |addresses|
  {
    if addresses != [] {
      ChargeAddsTimes(counts, addresses[..|addresses| - 1], a);
      assert addresses == addresses[..|addresses| - 1] + [addresses[|addresses| - 1]];
    }
  }

  lemma {:induction false} TimesHead(a: Address, addresses: seq<Address>)
    requires addresses != []
    ensures Times(a, addresses) == (if addresses[0] == a then 1 else 0) + Times(a, addresses[1..])
    decreases |addresses|
  {
    var n := |addresses| - 1;
    if n == 0 {
      assert addresses[..0] == [] && addresses[1..] == [];
    } else {
      TimesHead(a, addresses[..n]);
      assert addresses[..n][1..] == addresses[1..][..n - 1];
    }
  }

  lemma {:induction false} ChargeHead(counts: map<Address, int>, addresses: seq<Address>)
    requires addresses != []
    ensures Charge(counts, addresses) == Charge(counts[addresses[0] := CountOf(counts, addresses[0]) + 1], addresses[1..])
    decreases |addresses|
  {
    var n := |addresses| - 1;
    if n == 0 {
      assert addresses[..0] == [] && addresses[1..] == [];
    } else {
      ChargeHead(counts, addresses[..n]);
      assert addresses[..n][1..] == addresses[1..][..n - 1];
    }
  }

  lemma {:induction false} NotCharged(a: Address, addresses: seq<Address>)
    ensures Times(a, addresses) == 0 <==> a !in addresses
    decreases |addresses|
  {
    if addresses != [] {
      NotCharged(a, addresses[..|addresses| - 1]);
      assert addresses == addresses[..|addresses| - 1] + [addresses[|addresses| - 1]];
    }
  }

  predicate CanRelay(counts: map<Address, int>, addresses: seq<Address>, limit: int) {
    forall a :: a in addresses ==> CountOf(counts, a) < limit
  }

  // ------------------------------------------------------------------ one call

  /** The `hSet` of a count: what it leaves and whether it returns normally. The compensating HDEL
      removes the count even when the HSET was not executed. */
  function AfterSet(counts: map<Address, int>, a: Address, count: int, replies: R.Replies): (map<Address, int>, bool) {
    var written := if replies.hset == Failed then counts else counts[a := count];
    if replies.hset == Done && replies.expire == Done then (written, true)
    else (if replies.hdel == Failed then written else written - {a}, false)
  }

  /** A count under its own key behaves like the cache entry it is. */
  lemma SetCountIsHSet(store: Store<int>, key: string, counts: map<Address, int>, a: Address, count: int, ttl: nat, replies: R.Replies)
    requires HGet(store, key, "") == (if a in counts then Some(counts[a]) else None)
    ensures var (entry, done) := R.HSetOutcome(store, key, "", count, ttl, replies);
            var (after, ok) := AfterSet(counts, a, count, replies);
            && done == ok
            && HGet(entry, key, "") == (if a in after then Some(after[a]) else None)
            && forall b :: b != a ==> (b in after <==> b in counts) && CountOf(after, b) == CountOf(counts, b)
  {
    var written := Under(replies.hset, store, HSet(store, key, "", count));
    var dated := Under(replies.expire, written, ExpireNx(written, key, ttl));
    assert HGet(dated, key, "") == HGet(written, key, "");
    R.HDelElsewhere(if replies.hset == Done then dated else written, key, "");
  }

  /** One increment: whether the count is read, and the replies to the write. */
  datatype Attempt = Attempt(read: bool, write: R.Replies)

  function Good(): Attempt {
    Attempt(true, R.Replies(Done, Done, Done))
  }

  /** A failing increment is swallowed, with whatever it left. */
  function IncrementUnder(counts: map<Address, int>, a: Address, attempt: Attempt): map<Address, int> {
    if attempt.read then AfterSet(counts, a, CountOf(counts, a) + 1, attempt.write).0 else counts
  }

  function ChargeUnder(counts: map<Address, int>, addresses: seq<Address>, attempts: nat -> Attempt): map<Address, int> {
    if addresses == [] then counts
    else
      var n := |addresses| - 1;
      IncrementUnder(ChargeUnder(counts, addresses[..n], attempts), addresses[n], attempts(n))
  }

  /** Increments that all go through charge every address as often as it occurs ... */
  lemma {:induction false} GoodAttemptsCharge(counts: map<Address, int>, addresses: seq<Address>, attempts: nat -> Attempt)
    requires forall i: nat :: i < |addresses| ==> attempts(i).read && attempts(i).write.hset == attempts(i).write.expire == Done
    ensures ChargeUnder(counts, addresses, attempts) == Charge(counts, addresses)
    decreases |addresses|
  {
    if addresses != [] {
      GoodAttemptsCharge(counts, addresses[..|addresses| - 1], attempts);
    }
  }

  /** ... and failing ones never charge more than that. */
  lemma {:induction false} AttemptsChargeAtMost(counts: map<Address, int>, addresses: seq<Address>, attempts: nat -> Attempt, a: Address)
    requires CountOf(counts, a) >= 0
    ensures 0 <= CountOf(ChargeUnder(counts, addresses, attempts), a) <= CountOf(counts, a) + Times(a, addresses)
    decreases |addresses|
  {
    if addresses != [] {
      AttemptsChargeAtMost(counts, addresses[..|addresses| - 1], attempts, a);
    }
  }

  /** The first address that does not pass its check: its count cannot be read, or is not below the limit. */
  ghost predicate StopsAt(counts: map<Address, int>, addresses: seq<Address>, checked: nat -> bool, limit: int, i: nat) {
    && i < |addresses| && (!checked(i) || CountOf(counts, addresses[i]) >= limit)
    && forall j: nat :: j < i ==> checked(j) && CountOf(counts, addresses[j]) < limit
  }

  datatype Outcome = Relayed | LimitReached(address: Address) | CheckFailed | RelayFailed

  class RelayRepository {
    /** The counter texts in the cache, as numbers. */
    var counts: map<Address, int>
    const limit: int
    const ttlSeconds: int

    constructor (limit: int, ttlSeconds: int)
      ensures counts == map[] && this.limit == limit && this.ttlSeconds == ttlSeconds
    {
      this.limit := limit;
      this.ttlSeconds := ttlSeconds;
      counts := map[];
    }

    method GetRelayCount(address: Address) returns (count: int)
      ensures count == CountOf(counts, address)
    {
      count := CountOf(counts, address);
    }

    /** A normal return leaves the count; an error return leaves none, unless the HDEL was not executed.
        Nothing is stored without a positive time-to-live, and no other count changes. */
    method SetRelayCount(address: Address, count: int, replies: R.Replies) returns (ok: bool)
      modifies this`counts
      ensures ttlSeconds <= 0 ==> ok && counts == old(counts)
      ensures ttlSeconds > 0 && ok ==> address in counts && counts[address] == count
      ensures ttlSeconds > 0 && !ok && replies.hdel != Failed ==> address !in counts
      ensures ttlSeconds > 0 ==> (counts, ok) == AfterSet(old(counts), address, count, replies)
      ensures forall b :: b != address ==> (b in counts <==> b in old(counts)) && CountOf(counts, b) == CountOf(old(counts), b)
    {
      ok := true;
      if ttlSeconds <= 0 {
        return;
      }
      if replies.hset != Failed {
        counts := counts[address := count];
      }
      if replies.hset == Done && replies.expire == Done {
        return;
      }
      if replies.hdel != Failed {
        counts := counts - {address};
      }
      ok := false;
    }

    /** The checks in turn, up to the first that does not pass. */
    method FirstRefused(relayAddresses: seq<Address>, checked: nat -> bool) returns (stop: Option<nat>)
      ensures stop.Some? ==> StopsAt(counts, relayAddresses, checked, limit, stop.value)
      ensures stop.None? ==> forall i: nat :: i < |relayAddresses| ==> checked(i) && CountOf(counts, relayAddresses[i]) < limit
    {
      for i := 0 to |relayAddresses|
        invariant forall j: nat :: j < i ==> checked(j) && CountOf(counts, relayAddresses[j]) < limit
      {
        if !checked(i) {
          return Some(i);
        }
        var current := GetRelayCount(relayAddresses[i]);
        if !(current < limit) {
          return Some(i);
        }
      }
      stop := None;
    }

    /**
     * `checked`: whether the count of an address can be read for its check; `relayAnswers`: whether
     * the relay provider accepts the call; `attempts`: what becomes of each increment.
     */
    method RelayCall(relayAddresses: seq<Address>, checked: nat -> bool, relayAnswers: bool, attempts: nat -> Attempt)
      returns (outcome: Outcome)
      modifies this`counts
      ensures outcome.LimitReached? <==> exists i: nat :: StopsAt(old(counts), relayAddresses, checked, limit, i) && checked(i)
      ensures outcome.CheckFailed? <==> exists i: nat :: StopsAt(old(counts), relayAddresses, checked, limit, i) && !checked(i)
      ensures forall i: nat :: StopsAt(old(counts), relayAddresses, checked, limit, i) && checked(i) ==>
                outcome == LimitReached(relayAddresses[i])
      ensures outcome.Relayed? <==>
                && CanRelay(old(counts), relayAddresses, limit) && relayAnswers
                && forall i: nat :: i < |relayAddresses| ==> checked(i)
      ensures counts == if outcome.Relayed? && ttlSeconds > 0 then ChargeUnder(old(counts), relayAddresses, attempts) else old(counts)
      ensures outcome.Relayed? && ttlSeconds > 0 && (forall i: nat :: i < |relayAddresses| ==> attempts(i) == Good()) ==>
                counts == Charge(old(counts), relayAddresses)
    {
      var stop := FirstRefused(relayAddresses, checked);
      if stop.Some? {
        return if checked(stop.value) then LimitReached(relayAddresses[stop.value]) else CheckFailed;
      }
      if !relayAnswers {
        return RelayFailed;
      }
      for i := 0 to |relayAddresses|
        invariant counts == if ttlSeconds > 0 then ChargeUnder(old(counts), relayAddresses[..i], attempts) else old(counts)
      {
        assert relayAddresses[..i + 1][..i] == relayAddresses[..i];
        if attempts(i).read {
          var current := GetRelayCount(relayAddresses[i]);
          var _ := SetRelayCount(relayAddresses[i], current + 1, attempts(i).write);
        }
      }
      assert relayAddresses[..|relayAddresses|] == relayAddresses;
      if forall i: nat :: i < |relayAddresses| ==> attempts(i) == Good() {
        GoodAttemptsCharge(old(counts), relayAddresses, attempts);
      }
      outcome := Relayed;
    }
  }

  // ------------------------------------------------------------------ sequential runs

  /** One relay call that ran to its end with no failing increment, or the expiry of a counter. */
  datatype Event = Call(addresses: seq<Address>, answers: bool) | Expire(address: Address)

  predicate Admits(counts: map<Address, int>, e: Event, limit: int) {
    e.Call? && e.answers && CanRelay(counts, e.addresses, limit)
  }

  function Apply(counts: map<Address, int>, e: Event, limit: int): map<Address, int> {
    if Admits(counts, e, limit) then Charge(counts, e.addresses)
    else if e.Expire? then counts - {e.address}
    else counts
  }

  function Run(events: seq<Event>, limit: int): map<Address, int> {
    if events == [] then map[]
    else Apply(Run(events[..|events| - 1], limit), events[|events| - 1], limit)
  }

  /** Where the history of the present counter of `a` begins: after its last expiry. */
  function CreatedAt(events: seq<Event>, a: Address): (i: nat)
    ensures i <= |events|
    ensures i > 0 ==> events[i - 1] == Expire(a)
    ensures forall j :: i <= j < |events| ==> events[j] != Expire(a)
  {
    if events == [] then 0
    else if events[|events| - 1] == Expire(a) then |events|
    else CreatedAt(events[..|events| - 1], a)
  }

  /** How often the calls admitted from event `from` on charged `a`. */
  function ChargedSince(events: seq<Event>, from: nat, a: Address, limit: int): nat
    decreases |events|
  {
    if |events| <= from then 0
    else
      var before, e := events[..|events| - 1], events[|events| - 1];
      ChargedSince(before, from, a, limit) + (if Admits(Run(before, limit), e, limit) then Times(a, e.addresses) else 0)
  }

  /** In every sequential run each stored count is the number of charges since its counter was created. */
  lemma {:induction false} CountsAreCharges(events: seq<Event>, limit: int, a: Address)
    ensures CountOf(Run(events, limit), a) == ChargedSince(events, CreatedAt(events, a), a, limit)
    decreases |events|
  {
    if events != [] {
      var before, e := events[..|events| - 1], events[|events| - 1];
      CountsAreCharges(before, limit, a);
      if e.Call? {
        ChargeAddsTimes(Run(before, limit), e.addresses, a);
      }
    }
  }

  // ------------------------------------------------------------------ interleaved runs

  datatype Stage = ToSet | ToExpire | ToUndo

  /** A relay between its steps: checking, relaying, or in the middle of the increment of `rest[0]`. */
  datatype Process =
    | Checking(rest: seq<Address>, all: seq<Address>)
    | Relaying(all: seq<Address>)
    | Reading(rest: seq<Address>, all: seq<Address>)
    | Writing(rest: seq<Address>, all: seq<Address>, read: int, stage: Stage)
    | Ended(admitted: bool)

  /** The counts and the relays, and for each address how many HSETs were executed, how many increments
      completed, and how many executed HSETs belong to an increment that was then rejected. */
  datatype Shared = Shared(
    counts: map<Address, int>,
    procs: map<nat, Process>,
    sets: map<Address, int>,
    completed: map<Address, int>,
    spoiled: map<Address, int>)

  datatype Move = Begin(pid: nat, addresses: seq<Address>) | Go(pid: nat, reply: Reply) | Lapse(address: Address)

  function Checks(rest: seq<Address>, all: seq<Address>): Process {
    if rest == [] then Relaying(all) else Checking(rest, all)
  }

  function Increments(rest: seq<Address>, all: seq<Address>): Process {
    if rest == [] then Ended(true) else Reading(rest, all)
  }

  function Plus(m: map<Address, int>, a: Address): map<Address, int> {
    m[a := CountOf(m, a) + 1]
  }

  // What one command, or the answer of the provider, does to the process that waits for it ...

  function GoProcess(p: Process, counts: map<Address, int>, reply: Reply, limit: int): Process {
    match p
    case Checking(rest, all) =>
      if rest != [] && reply == Done && CountOf(counts, rest[0]) < limit then Checks(rest[1..], all) else Ended(false)
    case Relaying(all) => if reply == Done then Increments(all, all) else Ended(false)
    case Reading(rest, all) =>
      if rest == [] then p
      else if reply == Done then Writing(rest, all, CountOf(counts, rest[0]), ToSet)
      else Increments(rest[1..], all)
    case Writing(rest, all, read, stage) => (
      if rest == [] then p
      else
        match stage
        case ToSet => Writing(rest, all, read, if reply == Done then ToExpire else ToUndo)
        case ToExpire => if reply == Done then Increments(rest[1..], all) else Writing(rest, all, read, ToUndo)
        case ToUndo => Increments(rest[1..], all))
    case Ended(_) => p
  }

  /** ... and when it executes an HSET, an HDEL, completes an increment or spoils one. */
  predicate Sets(p: Process, reply: Reply) {
    p.Writing? && p.rest != [] && p.stage == ToSet && reply != Failed
  }

  predicate Removes(p: Process, reply: Reply) {
    p.Writing? && p.rest != [] && p.stage == ToUndo && reply != Failed
  }

  predicate Completes(p: Process, reply: Reply) {
    p.Writing? && p.rest != [] && p.stage == ToExpire && reply == Done
  }

  predicate Spoils(p: Process, reply: Reply) {
    p.Writing? && p.rest != [] && ((p.stage == ToSet && reply == Lost) || (p.stage == ToExpire && reply != Done))
  }

  function GoCounts(p: Process, counts: map<Address, int>, reply: Reply): map<Address, int> {
    if Sets(p, reply) then counts[p.rest[0] := p.read + 1]
    else if Removes(p, reply) then counts - {p.rest[0]}
    else counts
  }

  /** One cache command or the answer of the provider, or the expiry of a counter. */
  function Next(s: Shared, m: Move, limit: int): Shared {
    match m
    case Begin(pid, addresses) => if pid in s.procs then s else s.(procs := s.procs[pid := Checks(addresses, addresses)])
    case Lapse(a) => s.(counts := s.counts - {a})
    case Go(pid, reply) =>
      if pid !in s.procs then s
      else
        var p := s.procs[pid];
        Shared(GoCounts(p, s.counts, reply),
               s.procs[pid := GoProcess(p, s.counts, reply, limit)],
               if Sets(p, reply) then Plus(s.sets, p.rest[0]) else s.sets,
               if Completes(p, reply) then Plus(s.completed, p.rest[0]) else s.completed,
               if Spoils(p, reply) then Plus(s.spoiled, p.rest[0]) else s.spoiled)
  }

  function Steps(s: Shared, moves: seq<Move>, limit: int): Shared
    decreases |moves|
  {
    if moves == [] then s
    else Next(Steps(s, moves[..|moves| - 1], limit), moves[|moves| - 1], limit)
  }

  function Interleave(moves: seq<Move>, limit: int): Shared {
    Steps(Shared(map[], map[], map[], map[], map[]), moves, limit)
  }

  lemma {:induction false} StepsConcat(s: Shared, a: seq<Move>, b: seq<Move>, limit: int)
    ensures Steps(s, a + b, limit) == Steps(Steps(s, a, limit), b, limit)
    decreases |b|
  {
    if b == [] {
      assert a + b == a;
    } else {
      assert (a + b)[..|a + b| - 1] == a + b[..|b| - 1];
      StepsConcat(s, a, b[..|b| - 1], limit);
    }
  }

  /** A relay is refused exactly by a count that cannot be read or is not below the limit, or by the provider;
      once relayed it ends admitted, whatever its increments come to. */
  lemma HowRelaysEnd(p: Process, counts: map<Address, int>, reply: Reply, limit: int)
    requires !p.Ended? && (p.Relaying? || p.rest != [])
    ensures GoProcess(p, counts, reply, limit) == Ended(false) <==>
              || (p.Checking? && (reply != Done || CountOf(counts, p.rest[0]) >= limit))
              || (p.Relaying? && reply != Done)
    ensures GoProcess(p, counts, reply, limit) == Ended(true) ==> p.Reading? || p.Writing? || (p.Relaying? && reply == Done)
  {
  }

  // ---- how large a count can get ----

  /** A count about to be written does not exceed the HSETs executed for its address. */
  predicate ReadBounded(p: Process, sets: map<Address, int>) {
    p.Writing? && p.rest != [] && p.stage == ToSet ==> p.read <= CountOf(sets, p.rest[0])
  }

  /** Nor does any count. */
  ghost predicate Bounded(s: Shared) {
    && (forall a :: a in s.sets ==> s.sets[a] >= 0)
    && (forall a :: a in s.counts ==> s.counts[a] <= CountOf(s.sets, a))
    && (forall pid :: pid in s.procs ==> ReadBounded(s.procs[pid], s.sets))
  }

  lemma MoreSetsStillBound(p: Process, sets: map<Address, int>, a: Address)
    requires ReadBounded(p, sets)
    ensures ReadBounded(p, Plus(sets, a))
  {
  }

  lemma MoverBounded(p: Process, counts: map<Address, int>, sets: map<Address, int>, reply: Reply, limit: int)
    requires forall a :: a in sets ==> sets[a] >= 0
    requires forall a :: a in counts ==> counts[a] <= CountOf(sets, a)
    requires ReadBounded(p, sets)
    ensures var after := if Sets(p, reply) then Plus(sets, p.rest[0]) else sets;
            && (forall a :: a in GoCounts(p, counts, reply) ==> GoCounts(p, counts, reply)[a] <= CountOf(after, a))
            && ReadBounded(GoProcess(p, counts, reply, limit), after)
  {
  }

  lemma BoundedStep(s: Shared, m: Move, limit: int)
    requires Bounded(s)
    ensures Bounded(Next(s, m, limit))
  {
    if m.Go? && m.pid in s.procs {
      var p := s.procs[m.pid];
      MoverBounded(p, s.counts, s.sets, m.reply, limit);
      if Sets(p, m.reply) {
        forall q | q in s.procs ensures ReadBounded(s.procs[q], Plus(s.sets, p.rest[0])) {
          MoreSetsStillBound(s.procs[q], s.sets, p.rest[0]);
        }
      }
    }
  }

  /** The relays between the HSET and the EXPIRE of a count of `a`. */
  function InFlight(procs: map<nat, Process>, a: Address): set<nat> {
    set pid | pid in procs && IsInFlight(procs[pid], a)
  }

  predicate IsInFlight(p: Process, a: Address) {
    p.Writing? && p.rest != [] && p.rest[0] == a && p.stage == ToExpire
  }

  /** Every executed HSET of `a` is in flight, completed or spoiled. */
  ghost predicate Accounted(s: Shared, a: Address) {
    CountOf(s.sets, a) == CountOf(s.completed, a) + CountOf(s.spoiled, a) + |InFlight(s.procs, a)|
  }

  function One(b: bool): nat {
    if b then 1 else 0
  }

  lemma MoverAccounted(p: Process, counts: map<Address, int>, reply: Reply, limit: int, a: Address)
    ensures One(Sets(p, reply) && p.rest[0] == a) ==
            One(Completes(p, reply) && p.rest[0] == a) + One(Spoils(p, reply) && p.rest[0] == a)
            + One(IsInFlight(GoProcess(p, counts, reply, limit), a)) - One(IsInFlight(p, a))
  {
  }

  lemma InFlightMoves(procs: map<nat, Process>, pid: nat, p: Process, a: Address)
    ensures |InFlight(procs[pid := p], a)| ==
            |InFlight(procs, a)| - One(pid in procs && IsInFlight(procs[pid], a)) + One(IsInFlight(p, a))
  {
    var others := InFlight(procs, a) - {pid};
    if IsInFlight(p, a) {
      assert InFlight(procs[pid := p], a) == others + {pid};
    } else {
      assert InFlight(procs[pid := p], a) == others;
    }
    if pid in procs && IsInFlight(procs[pid], a) {
      assert InFlight(procs, a) == others + {pid};
    } else {
      assert InFlight(procs, a) == others;
    }
  }

  lemma AccountedStep(s: Shared, m: Move, limit: int, a: Address)
    requires Accounted(s, a)
    ensures Accounted(Next(s, m, limit), a)
  {
    match m {
      case Begin(pid, addresses) =>
        if pid !in s.procs {
          InFlightMoves(s.procs, pid, Checks(addresses, addresses), a);
        }
      case Go(pid, reply) =>
        if pid in s.procs {
          var p := s.procs[pid];
          MoverAccounted(p, s.counts, reply, limit, a);
          InFlightMoves(s.procs, pid, GoProcess(p, s.counts, reply, limit), a);
        }
      case Lapse(_) =>
    }
  }

  lemma {:induction false} RunIsAccounted(moves: seq<Move>, limit: int, a: Address)
    ensures Bounded(Interleave(moves, limit)) && Accounted(Interleave(moves, limit), a)
    decreases |moves|
  {
    if moves == [] {
      assert InFlight(Interleave([], limit).procs, a) == {};
    } else {
      RunIsAccounted(moves[..|moves| - 1], limit, a);
      BoundedStep(Interleave(moves[..|moves| - 1], limit), moves[|moves| - 1], limit);
      AccountedStep(Interleave(moves[..|moves| - 1], limit), moves[|moves| - 1], limit, a);
    }
  }

  /**
   * In every interleaving of relays, expiries and commands that fail or go unanswered, a stored count
   * never exceeds the increments completed for its address, those between their HSET and their
   * EXPIRE, and those rejected after their HSET was executed.
   */
  lemma CountNeverExceedsIncrements(moves: seq<Move>, limit: int, a: Address)
    ensures var s := Interleave(moves, limit);
            CountOf(s.counts, a) <= CountOf(s.completed, a) + |InFlight(s.procs, a)| + CountOf(s.spoiled, a)
  {
    RunIsAccounted(moves, limit, a);
  }

  /** The count stays within the increments completed or in flight. */
  ghost predicate Within(s: Shared, a: Address) {
    CountOf(s.counts, a) <= CountOf(s.completed, a) + |InFlight(s.procs, a)|
  }

  /** Event `i` is an HSET of a count of `a` that is executed but not answered, or an EXPIRE of one that is not answered. */
  ghost predicate SpoilsAt(moves: seq<Move>, i: nat, limit: int, a: Address)
    requires i < |moves|
  {
    var s, m := Interleave(moves[..i], limit), moves[i];
    m.Go? && m.pid in s.procs && Spoils(s.procs[m.pid], m.reply) && s.procs[m.pid].rest[0] == a
  }

  lemma {:induction false} NothingSpoiled(moves: seq<Move>, limit: int, a: Address)
    requires forall i :: 0 <= i < |moves| ==> !SpoilsAt(moves, i, limit, a)
    ensures CountOf(Interleave(moves, limit).spoiled, a) == 0
    decreases |moves|
  {
    if moves != [] {
      var before := moves[..|moves| - 1];
      forall i | 0 <= i < |before| ensures !SpoilsAt(before, i, limit, a) {
        assert before[..i] == moves[..i] && before[i] == moves[i];
        assert !SpoilsAt(moves, i, limit, a);
      }
      NothingSpoiled(before, limit, a);
      assert !SpoilsAt(moves, |moves| - 1, limit, a);
    }
  }

  /** When no such command goes wrong, the count never exceeds the increments completed or in flight. */
  lemma WithinWhenNothingIsSpoiled(moves: seq<Move>, limit: int, a: Address)
    requires forall i :: 0 <= i < |moves| ==> !SpoilsAt(moves, i, limit, a)
    ensures Within(Interleave(moves, limit), a)
  {
    NothingSpoiled(moves, limit, a);
    CountNeverExceedsIncrements(moves, limit, a);
  }

  /** Without a positive limit nobody is admitted and nothing is ever counted. */
  ghost predicate NobodyAdmitted(s: Shared) {
    && s.counts == map[] && s.completed == map[]
    && forall pid :: pid in s.procs ==> match s.procs[pid]
         case Checking(_, _) => true
         case Relaying(all) => all == []
         case Ended(_) => true
         case _ => false
  }

  lemma {:induction false} NobodyIsAdmitted(moves: seq<Move>, limit: int)
    requires limit < 1
    ensures NobodyAdmitted(Interleave(moves, limit))
    decreases |moves|
  {
    if moves != [] {
      NobodyIsAdmitted(moves[..|moves| - 1], limit);
    }
  }

  /**
   * All runs with at most `k` increments rejected after their HSET keep the count within, exactly
   * when `k` is 0 (or the limit admits nobody).
   */
  lemma WithinIff(limit: int, a: Address, k: nat)
    ensures (forall moves: seq<Move> :: CountOf(Interleave(moves, limit).spoiled, a) <= k ==> Within(Interleave(moves, limit), a))
            <==> k == 0 || limit < 1
  {
    if limit < 1 {
      forall moves: seq<Move> ensures Within(Interleave(moves, limit), a) {
        NobodyIsAdmitted(moves, limit);
      }
    } else if k == 0 {
      forall moves: seq<Move> | CountOf(Interleave(moves, limit).spoiled, a) <= 0 ensures Within(Interleave(moves, limit), a) {
        CountNeverExceedsIncrements(moves, limit, a);
      }
    } else {
      var moves := SpoiledIncrementsCount(limit, a, 1);
      assert !Within(Interleave(moves, limit), a);
    }
  }

  // ---- runs that reach the bounds ----

  lemma Extend(s: Shared, moves: seq<Move>, m: Move, limit: int) returns (t: Shared, more: seq<Move>)
    requires s == Interleave(moves, limit)
    ensures more == moves + [m] && t == Next(s, m, limit) && t == Interleave(more, limit)
  {
    t, more := Next(s, m, limit), moves + [m];
    assert more[..|moves|] == moves;
  }

  /** `n` relays of `[a]`, all past their check while nothing is counted. */
  ghost predicate AllPassed(s: Shared, a: Address, n: nat) {
    && s.counts == map[] && CountOf(s.completed, a) == 0 && CountOf(s.spoiled, a) == 0
    && (forall pid :: pid in s.procs <==> 0 <= pid < n)
    && (forall pid :: 0 <= pid < n ==> s.procs[pid] == Relaying([a]))
  }

  /** Any number of overlapping relays of one address pass any positive limit: all of them read before any writes. */
  lemma {:induction false} OverlappingRelaysAllPass(limit: int, a: Address, n: nat) returns (moves: seq<Move>)
    requires limit >= 1
    ensures AllPassed(Interleave(moves, limit), a, n)
    decreases n
  {
    if n == 0 {
      moves := [];
    } else {
      moves := OverlappingRelaysAllPass(limit, a, n - 1);
      var s := Interleave(moves, limit);
      s, moves := Extend(s, moves, Begin(n - 1, [a]), limit);
      assert [a][1..] == [];
      s, moves := Extend(s, moves, Go(n - 1, Done), limit);
    }
  }

  /** `k` of `n` such relays have been charged. */
  ghost predicate Charged(s: Shared, a: Address, n: nat, k: nat) {
    && CountOf(s.counts, a) == k && CountOf(s.completed, a) == k
    && (forall pid :: pid in s.procs <==> 0 <= pid < n)
    && (forall pid :: k <= pid < n ==> s.procs[pid] == Relaying([a]))
  }

  lemma {:induction false} PassedAreCharged(limit: int, a: Address, n: nat, k: nat, passed: seq<Move>) returns (moves: seq<Move>)
    requires k <= n && AllPassed(Interleave(passed, limit), a, n)
    ensures Charged(Interleave(moves, limit), a, n, k)
    decreases k
  {
    if k == 0 {
      moves := passed;
    } else {
      moves := PassedAreCharged(limit, a, n, k - 1, passed);
      moves := ChargeNext(limit, a, n, k - 1, moves);
    }
  }

  lemma ChargeNext(limit: int, a: Address, n: nat, k: nat, before: seq<Move>) returns (moves: seq<Move>)
    requires k < n && Charged(Interleave(before, limit), a, n, k)
    ensures Charged(Interleave(moves, limit), a, n, k + 1)
  {
    var s := Interleave(before, limit);
    var s1, m1 := Extend(s, before, Go(k, Done), limit);
    assert s1 == s.(procs := s.procs[k := Reading([a], [a])]);
    var t, more := IncrementAlone(s1, k, [a], [a], limit);
    assert [a][1..] == [];
    assert t.procs == s.procs[k := Ended(true)];
    StepsConcat(Shared(map[], map[], map[], map[], map[]), m1, more, limit);
    moves := m1 + more;
  }

  /** Overlapping relays may exceed the limit by any amount: `n` of them are admitted and charged, no command failing. */
  lemma OverlapExceedsTheLimit(limit: int, a: Address, n: nat) returns (moves: seq<Move>)
    requires limit >= 1
    ensures CountOf(Interleave(moves, limit).counts, a) == n
  {
    var passed := OverlappingRelaysAllPass(limit, a, n);
    moves := PassedAreCharged(limit, a, n, n, passed);
  }

  /** Relay `k` is between its HSET and its EXPIRE; the `k` before it were rejected after their HSET, too late for the next. */
  ghost predicate Spoiled(s: Shared, a: Address, n: nat, k: nat) {
    && k < n && s.counts == map[a := k + 1] && CountOf(s.completed, a) == 0 && CountOf(s.spoiled, a) == k
    && (forall pid :: pid in s.procs <==> 0 <= pid < n)
    && (forall pid :: 0 <= pid < k ==> s.procs[pid] == Ended(true))
    && s.procs[k] == Writing([a], [a], k, ToExpire)
    && (forall pid :: k < pid < n ==> s.procs[pid] == Relaying([a]))
  }

  lemma {:induction false} PassedAreSpoiled(limit: int, a: Address, n: nat, k: nat, passed: seq<Move>) returns (moves: seq<Move>)
    requires k < n && AllPassed(Interleave(passed, limit), a, n)
    ensures Spoiled(Interleave(moves, limit), a, n, k)
    decreases k
  {
    if k == 0 {
      moves := FirstHSet(limit, a, n, passed);
    } else {
      var before := PassedAreSpoiled(limit, a, n, k - 1, passed);
      moves := NextSpoiled(limit, a, n, k, before);
    }
  }

  lemma FirstHSet(limit: int, a: Address, n: nat, passed: seq<Move>) returns (moves: seq<Move>)
    requires 0 < n && AllPassed(Interleave(passed, limit), a, n)
    ensures Spoiled(Interleave(moves, limit), a, n, 0)
  {
    var g := Go(0, Done);
    var s := Interleave(passed, limit);
    var s1, m1 := Extend(s, passed, g, limit);
    assert s1 == s.(procs := s.procs[0 := Reading([a], [a])]);
    var s2, m2 := Extend(s1, m1, g, limit);
    assert s2 == s.(procs := s.procs[0 := Writing([a], [a], 0, ToSet)]);
    var s3, m3 := Extend(s2, m2, g, limit);
    assert s3.procs == s.procs[0 := Writing([a], [a], 0, ToExpire)];
    moves := m3;
  }

  /** Relay `k` reads the count; then the EXPIRE of relay `k - 1` fails and its HDEL runs; then relay `k` writes. */
  lemma NextSpoiled(limit: int, a: Address, n: nat, k: nat, before: seq<Move>) returns (moves: seq<Move>)
    requires 0 < k < n && Spoiled(Interleave(before, limit), a, n, k - 1)
    ensures Spoiled(Interleave(moves, limit), a, n, k)
  {
    assert [a][1..] == [];
    var s := Interleave(before, limit);
    var s1, m1 := Extend(s, before, Go(k, Done), limit);
    var s2, m2 := Extend(s1, m1, Go(k, Done), limit);
    assert s2 == s.(procs := s.procs[k := Writing([a], [a], k, ToSet)]);
    var s4, m4 := SpoilAndUndo(limit, a, k - 1, s2, m2);
    var s5, m5 := Extend(s4, m4, Go(k, Done), limit);
    assert s5.procs == s4.procs[k := Writing([a], [a], k, ToExpire)];
    moves := m5;
  }

  lemma SpoilAndUndo(limit: int, a: Address, pid: nat, s: Shared, before: seq<Move>) returns (t: Shared, moves: seq<Move>)
    requires s == Interleave(before, limit) && pid in s.procs && s.procs[pid] == Writing([a], [a], pid, ToExpire)
    ensures t == Interleave(moves, limit)
    ensures t == s.(procs := s.procs[pid := Ended(true)], counts := s.counts - {a}, spoiled := Plus(s.spoiled, a))
  {
    assert [a][1..] == [];
    t, moves := Extend(s, before, Go(pid, Failed), limit);
    assert t == s.(procs := s.procs[pid := Writing([a], [a], pid, ToUndo)], spoiled := Plus(s.spoiled, a));
    t, moves := Extend(t, moves, Go(pid, Done), limit);
    assert t.procs == s.procs[pid := Ended(true)];
  }

  /**
   * The bound is attained for any number of rejected increments: `k` relays of one address are
   * rejected after their HSET, one completes, none is in flight, and the count is `k + 1`.
   */
  lemma SpoiledIncrementsCount(limit: int, a: Address, k: nat) returns (moves: seq<Move>)
    requires limit >= 1
    ensures var s := Interleave(moves, limit);
            && s.counts == map[a := k + 1]
            && CountOf(s.completed, a) == 1 && CountOf(s.spoiled, a) == k && InFlight(s.procs, a) == {}
  {
    var passed := OverlappingRelaysAllPass(limit, a, k + 1);
    moves := PassedAreSpoiled(limit, a, k + 1, k, passed);
    var s;
    assert [a][1..] == [];
    s, moves := Extend(Interleave(moves, limit), moves, Go(k, Done), limit);
    assert forall pid :: pid in s.procs ==> s.procs[pid] == Ended(true);
  }

  // ---- relays that do not overlap ----

  predicate Active(p: Process, a: Address) {
    !p.Ended? && a in p.all
  }

  ghost predicate UnderWay(s: Shared, a: Address) {
    exists pid :: pid in s.procs && Active(s.procs[pid], a)
  }

  /** No relay naming `a` begins while another one naming `a` has not ended. */
  ghost predicate NoOverlap(moves: seq<Move>, limit: int, a: Address) {
    forall i :: 0 <= i < |moves| && moves[i].Begin? && a in moves[i].addresses ==>
      !UnderWay(Interleave(moves[..i], limit), a)
  }

  /** No relay names `a` more than `m` times. */
  ghost predicate AtMostTimes(moves: seq<Move>, a: Address, m: nat) {
    forall i :: 0 <= i < |moves| && moves[i].Begin? ==> Times(a, moves[i].addresses) <= m
  }

  /** What a relay naming `a` has still to add to the count of `a` fits under the bound. */
  predicate Fits(count: int, p: Process, a: Address, limit: int, m: nat) {
    match p
    case Checking(rest, all) => a in rest || count < limit
    case Relaying(all) => count < limit
    case Reading(rest, all) => limit >= 1 && Times(a, rest) <= m && count + Times(a, rest) <= limit - 1 + m
    case Writing(rest, all, read, stage) =>
      && rest != [] && limit >= 1 && Times(a, rest) <= m
      && (if stage == ToSet then
            && count + Times(a, rest) <= limit - 1 + m
            && (rest[0] == a ==> 0 <= read && read + Times(a, rest) <= limit - 1 + m)
          else count + Times(a, rest[1..]) <= limit - 1 + m)
    case Ended(_) => true
  }

  /** A process touches only addresses of its own list. */
  predicate Shaped(p: Process, a: Address, m: nat) {
    && (!p.Ended? ==> Times(a, p.all) <= m)
    && (p.Checking? || p.Reading? || p.Writing? ==> p.rest != [] && forall x :: x in p.rest ==> x in p.all)
  }

  ghost predicate Sequential(s: Shared, a: Address, limit: int, m: nat) {
    && 0 <= CountOf(s.counts, a) && (a in s.counts ==> s.counts[a] <= limit - 1 + m)
    && (forall pid :: pid in s.procs ==> Shaped(s.procs[pid], a, m))
    && (forall pid :: pid in s.procs && Active(s.procs[pid], a) ==> Fits(CountOf(s.counts, a), s.procs[pid], a, limit, m))
    && (forall p, q :: p in s.procs && q in s.procs && Active(s.procs[p], a) && Active(s.procs[q], a) ==> p == q)
  }

  /** The mover stays a process of its own list, and one not naming `a` leaves the count of `a` alone. */
  lemma MoverShaped(p: Process, counts: map<Address, int>, reply: Reply, a: Address, limit: int, m: nat)
    requires Shaped(p, a, m)
    ensures Shaped(GoProcess(p, counts, reply, limit), a, m)
    ensures Active(GoProcess(p, counts, reply, limit), a) ==> Active(p, a)
    ensures !Active(p, a) ==>
              var after := GoCounts(p, counts, reply);
              CountOf(after, a) == CountOf(counts, a) && (a in after <==> a in counts)
  {
    if !p.Ended? && !p.Relaying? {
      assert p.rest[0] in p.rest;
      assert forall x :: x in p.rest[1..] ==> x in p.rest;
    }
  }

  /** A mover that fits goes on fitting, and leaves a count within the bound. */
  lemma MoverFits(p: Process, counts: map<Address, int>, reply: Reply, a: Address, limit: int, m: nat)
    requires Shaped(p, a, m) && Active(p, a) && Fits(CountOf(counts, a), p, a, limit, m) && m >= 1
    requires 0 <= CountOf(counts, a) && (a in counts ==> counts[a] <= limit - 1 + m)
    ensures var after := GoCounts(p, counts, reply);
            && Fits(CountOf(after, a), GoProcess(p, counts, reply, limit), a, limit, m)
            && 0 <= CountOf(after, a) && (a in after ==> after[a] <= limit - 1 + m)
  {
    if !p.Relaying? {
      TimesHead(a, p.rest);
    }
    if p.Checking? && p.rest[0] != a && a in p.rest {
      assert a in p.rest[1..];
    }
  }

  /** A count of `a` that got smaller still fits. */
  lemma LessFits(count: int, less: int, p: Process, a: Address, limit: int, m: nat)
    requires Shaped(p, a, m) && Fits(count, p, a, limit, m) && 0 <= less <= count
    ensures Fits(less, p, a, limit, m)
  {
  }

  lemma SequentialStep(s: Shared, move: Move, a: Address, limit: int, m: nat)
    requires Sequential(s, a, limit, m) && m >= 1
    requires move.Begin? ==> Times(a, move.addresses) <= m && (a in move.addresses ==> !UnderWay(s, a))
    ensures Sequential(Next(s, move, limit), a, limit, m)
  {
    match move {
      case Begin(pid, addresses) => SequentialBegin(s, pid, addresses, a, limit, m);
      case Go(pid, reply) =>
        if pid in s.procs {
          SequentialGo(s, pid, reply, a, limit, m);
        }
      case Lapse(b) => SequentialLapse(s, b, a, limit, m);
    }
  }

  lemma SequentialBegin(s: Shared, pid: nat, addresses: seq<Address>, a: Address, limit: int, m: nat)
    requires Sequential(s, a, limit, m) && Times(a, addresses) <= m && (a in addresses ==> !UnderWay(s, a))
    ensures Sequential(Next(s, Begin(pid, addresses), limit), a, limit, m)
  {
    if a in addresses {
      assert forall q :: q in s.procs ==> !Active(s.procs[q], a);
    }
  }

  lemma SequentialLapse(s: Shared, b: Address, a: Address, limit: int, m: nat)
    requires Sequential(s, a, limit, m)
    ensures Sequential(Next(s, Lapse(b), limit), a, limit, m)
  {
    var counts := s.counts - {b};
    forall q | q in s.procs && Active(s.procs[q], a) ensures Fits(CountOf(counts, a), s.procs[q], a, limit, m) {
      LessFits(CountOf(s.counts, a), CountOf(counts, a), s.procs[q], a, limit, m);
    }
  }

  lemma SequentialGo(s: Shared, pid: nat, reply: Reply, a: Address, limit: int, m: nat)
    requires Sequential(s, a, limit, m) && m >= 1 && pid in s.procs
    ensures Sequential(Next(s, Go(pid, reply), limit), a, limit, m)
  {
    var p, after := s.procs[pid], Next(s, Go(pid, reply), limit);
    MoverShaped(p, s.counts, reply, a, limit, m);
    if Active(p, a) {
      MoverFits(p, s.counts, reply, a, limit, m);
    }
    forall q | q in after.procs && Active(after.procs[q], a)
      ensures Active(s.procs[q], a) && Fits(CountOf(after.counts, a), after.procs[q], a, limit, m)
    {
      if q != pid {
        assert after.procs[q] == s.procs[q];
        assert !Active(p, a);
      }
    }
  }

  lemma {:induction false} SequentialRun(moves: seq<Move>, limit: int, a: Address, m: nat)
    requires m >= 1 && AtMostTimes(moves, a, m) && NoOverlap(moves, limit, a)
    ensures Sequential(Interleave(moves, limit), a, limit, m)
    decreases |moves|
  {
    if moves != [] {
      var before := moves[..|moves| - 1];
      assert forall i :: 0 <= i < |before| ==> before[..i] == moves[..i] && before[i] == moves[i];
      SequentialRun(before, limit, a, m);
      SequentialStep(Interleave(before, limit), moves[|moves| - 1], a, limit, m);
    }
  }

  /**
   * However the commands of relays of other addresses fall between, whatever expires and whatever
   * command fails: when relays of `a` do not overlap, the count of `a` never exceeds
   * `limit + m - 1`, where no relay names `a` more than `m >= 1` times.
   */
  lemma CountIsBounded(moves: seq<Move>, limit: int, a: Address, m: nat)
    requires m >= 1 && AtMostTimes(moves, a, m) && NoOverlap(moves, limit, a)
    ensures a in Interleave(moves, limit).counts ==> Interleave(moves, limit).counts[a] <= limit + m - 1
  {
    SequentialRun(moves, limit, a, m);
  }

  /** With the addresses of every relay distinct, no count exceeds the limit. */
  lemma DistinctAddressesRespectTheLimit(moves: seq<Move>, limit: int, a: Address)
    requires NoOverlap(moves, limit, a)
    requires forall i :: 0 <= i < |moves| && moves[i].Begin? ==>
               forall j, k :: 0 <= j < k < |moves[i].addresses| ==> moves[i].addresses[j] != moves[i].addresses[k]
    ensures a in Interleave(moves, limit).counts ==> Interleave(moves, limit).counts[a] <= limit
  {
    forall i | 0 <= i < |moves| && moves[i].Begin? ensures Times(a, moves[i].addresses) <= 1 {
      AtMostOnce(a, moves[i].addresses);
    }
    CountIsBounded(moves, limit, a, 1);
  }

  lemma {:induction false} AtMostOnce(a: Address, addresses: seq<Address>)
    requires forall j, k :: 0 <= j < k < |addresses| ==> addresses[j] != addresses[k]
    ensures Times(a, addresses) <= 1
    decreases |addresses|
  {
    if addresses != [] {
      AtMostOnce(a, addresses[..|addresses| - 1]);
      if addresses[|addresses| - 1] == a {
        NotCharged(a, addresses[..|addresses| - 1]);
      }
    }
  }

  // ---- an uninterrupted relay ----

  lemma {:induction false} ChecksAlone(s: Shared, pid: nat, rest: seq<Address>, all: seq<Address>, limit: int) returns (moves: seq<Move>)
    requires pid in s.procs && s.procs[pid] == Checks(rest, all) && CanRelay(s.counts, rest, limit)
    ensures Steps(s, moves, limit) == s.(procs := s.procs[pid := Relaying(all)])
    decreases |rest|
  {
    if rest == [] {
      moves := [];
      assert s.procs == s.procs[pid := Relaying(all)];
    } else {
      var t := Next(s, Go(pid, Done), limit);
      assert t == Steps(s, [Go(pid, Done)], limit) by { assert [Go(pid, Done)][..0] == []; }
      var more := ChecksAlone(t, pid, rest[1..], all, limit);
      moves := [Go(pid, Done)] + more;
      StepsConcat(s, [Go(pid, Done)], more, limit);
      assert t.procs[pid := Relaying(all)] == s.procs[pid := Relaying(all)];
    }
  }

  lemma {:induction false} IncrementsAlone(s: Shared, pid: nat, rest: seq<Address>, all: seq<Address>, limit: int) returns (moves: seq<Move>)
    requires pid in s.procs && s.procs[pid] == Increments(rest, all)
    ensures var after := Steps(s, moves, limit);
            after.counts == Charge(s.counts, rest) && after.procs == s.procs[pid := Ended(true)]
    decreases |rest|
  {
    if rest == [] {
      moves := [];
      assert s.procs == s.procs[pid := Ended(true)];
    } else {
      var t, first := IncrementAlone(s, pid, rest, all, limit);
      var more := IncrementsAlone(t, pid, rest[1..], all, limit);
      moves := first + more;
      StepsConcat(s, first, more, limit);
      ChargeHead(s.counts, rest);
      assert t.procs[pid := Ended(true)] == s.procs[pid := Ended(true)];
    }
  }

  lemma IncrementAlone(s: Shared, pid: nat, rest: seq<Address>, all: seq<Address>, limit: int)
    returns (t: Shared, moves: seq<Move>)
    requires pid in s.procs && s.procs[pid] == Reading(rest, all) && rest != []
    ensures t == Steps(s, moves, limit)
    ensures t.counts == s.counts[rest[0] := CountOf(s.counts, rest[0]) + 1] && t.completed == Plus(s.completed, rest[0])
    ensures t.procs == s.procs[pid := Increments(rest[1..], all)]
  {
    var g := Go(pid, Done);
    assert [g, g, g][..2] == [g, g] && [g, g][..1] == [g] && [g][..0] == [];
    var s1 := Next(s, g, limit);
    assert s1 == s.(procs := s.procs[pid := Writing(rest, all, CountOf(s.counts, rest[0]), ToSet)]);
    var s2 := Next(s1, g, limit);
    assert s2.procs == s.procs[pid := Writing(rest, all, CountOf(s.counts, rest[0]), ToExpire)];
    t := Next(s2, g, limit);
    assert t.procs == s.procs[pid := Increments(rest[1..], all)];
    assert Steps(s, [g], limit) == s1;
    assert Steps(s, [g, g], limit) == s2;
    moves := [g, g, g];
  }

  /** A relay nobody interrupts, with every command going through, does what the call does as a whole. */
  lemma RelayAlone(s: Shared, pid: nat, addresses: seq<Address>, limit: int) returns (moves: seq<Move>)
    requires pid !in s.procs && CanRelay(s.counts, addresses, limit)
    ensures var after := Steps(s, moves, limit);
            after.counts == Charge(s.counts, addresses) && after.procs == s.procs[pid := Ended(true)]
  {
    var s1 := Next(s, Begin(pid, addresses), limit);
    var checks := ChecksAlone(s1, pid, addresses, addresses, limit);
    var s2 := Steps(s1, checks, limit);
    var s3 := Next(s2, Go(pid, Done), limit);
    var increments := IncrementsAlone(s3, pid, addresses, addresses, limit);
    moves := [Begin(pid, addresses)] + checks + [Go(pid, Done)] + increments;
    assert s1 == Steps(s, [Begin(pid, addresses)], limit) by { assert [Begin(pid, addresses)][..0] == []; }
    assert s3 == Steps(s2, [Go(pid, Done)], limit) by { assert [Go(pid, Done)][..0] == []; }
    StepsConcat(s, [Begin(pid, addresses)], checks, limit);
    StepsConcat(s, [Begin(pid, addresses)] + checks, [Go(pid, Done)], limit);
    StepsConcat(s, [Begin(pid, addresses)] + checks + [Go(pid, Done)], increments, limit);
    assert s3.procs[pid := Ended(true)] == s.procs[pid := Ended(true)];
  }

  /** The bound is reached without any overlap: a list repeating one address `m` times, relayed at `limit - 1`. */
  lemma BoundIsReached(counts: map<Address, int>, limit: int, a: Address, m: nat)
    requires m >= 1 && CountOf(counts, a) == limit - 1
    ensures var addresses := seq(m, _ => a);
            CanRelay(counts, addresses, limit) && CountOf(Charge(counts, addresses), a) == limit + m - 1
  {
    var addresses := seq(m, _ => a);
    ChargeAddsTimes(counts, addresses, a);
    RepeatTimes(a, m);
  }

  lemma {:induction false} RepeatTimes(a: Address, m: nat)
    ensures Times(a, seq(m, _ => a)) == m
  {
    if m > 0 {
      assert seq(m, _ => a)[..m - 1] == seq(m - 1, _ => a);
      RepeatTimes(a, m - 1);
    }
  }
}
