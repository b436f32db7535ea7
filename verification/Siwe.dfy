/**
 Single-use nonces of Sign-In with Ethereum messages (ERC-4361): src/domain/siwe/siwe.repository.ts and
 src/datasources/siwe-api/siwe-api.service.ts. What the message parser, the signature check and the
 clock say is a parameter.
 */
module Siwe {
  import opened Prelude

  const MS_PER_SECOND: nat := 1000

  /** A parsed message and the outcome of its other checks. */
  datatype Message = Message(
    nonce: Option<string>,
    valid: bool,                 // validateSiweMessage, a chain id and an address
    expirationTime: Option<int>, // ms
    signature: Option<bool>)     // the signature check, None when it throws

  datatype State = State(
    now: nat,
    nonces: map<string, nat>,              // live nonces with their deadlines
    pending: map<nat, Verification>,       // verifications between reading and clearing their nonce
    issues: map<string, nat>,              // how often each nonce was issued
    accepts: map<string, nat>)             // how often a message with it was accepted

  /** A verification that has done everything but clear its nonce. */
  datatype Verification = Verification(nonce: string, cached: bool, accept: bool, readAt: nat)

  datatype Event =
    | Tick(ms: nat)
    | Issue(nonce: string)
    | Begin(pid: nat, message: Message, nonceAnswered: bool)
    | Finish(pid: nat, cleared: bool, answered: bool)

  function CountOf(m: map<string, nat>, n: string): nat {
    if n in m then m[n] else 0
  }

  function Increment(m: map<string, nat>, n: string): map<string, nat> {
    m[n := CountOf(m, n) + 1]
  }

  /** Every check but the nonce passes. */
  predicate OtherChecks(m: Message, now: nat, maxValidityPeriodInSeconds: nat) {
    && m.valid
    && (m.expirationTime.None? || m.expirationTime.value <= now + MS_PER_SECOND * maxValidityPeriodInSeconds)
    && m.signature == Some(true)
  }

  /** `storeNonce`: an entry that exists keeps its deadline. */
  function Store(nonces: map<string, nat>, n: string, now: nat, ttlSeconds: nat): map<string, nat> {
    if ttlSeconds == 0 || n in nonces then nonces else nonces[n := now + MS_PER_SECOND * ttlSeconds]
  }

  datatype Config = Config(nonceTtlInSeconds: nat, maxValidityPeriodInSeconds: nat)

  /** One step; a `Finish` whose clearing is not answered rejects, so it accepts nothing. */
  function Apply(s: State, e: Event, c: Config): State {
    match e
    case Tick(ms) =>
      var now := s.now + ms;
      s.(now := now, nonces := map n | n in s.nonces && now < s.nonces[n] :: s.nonces[n])
    case Issue(n) =>
      s.(nonces := Store(s.nonces, n, s.now, c.nonceTtlInSeconds), issues := Increment(s.issues, n))
    case Begin(pid, m, nonceAnswered) =>
      if pid in s.pending || m.nonce.None? then s
      else
        var cached := nonceAnswered && m.nonce.value in s.nonces;
        var accept := cached && OtherChecks(m, s.now, c.maxValidityPeriodInSeconds);
        s.(pending := s.pending[pid := Verification(m.nonce.value, cached, accept, s.now)])
    case Finish(pid, cleared, answered) =>
      if pid !in s.pending then s
      else
        var v := s.pending[pid];
        var after := s.(pending := s.pending - {pid}, nonces := if cleared || answered then s.nonces - {v.nonce} else s.nonces);
        if v.accept && answered then after.(accepts := Increment(s.accepts, v.nonce)) else after
  }

  function Init(now: nat): State {
    State(now, map[], map[], map[], map[])
  }

  function Run(now: nat, events: seq<Event>, c: Config): State {
    if events == [] then Init(now)
    else Apply(Run(now, events[..|events| - 1], c), events[|events| - 1], c)
  }

  // ---- single use ----

  /** No verification of a nonce begins while another one of the same nonce is under way. */
  ghost predicate NoOverlap(now: nat, events: seq<Event>, c: Config, n: string) {
    forall i :: 0 <= i < |events| && events[i].Begin? && events[i].message.nonce == Some(n) ==>
      !UnderWay(Run(now, events[..i], c), n)
  }

  ghost predicate UnderWay(s: State, n: string) {
    exists pid :: pid in s.pending && s.pending[pid].nonce == n
  }

  /** The nonce can still lead to an acceptance. */
  ghost predicate Open(s: State, n: string) {
    n in s.nonces || exists pid :: pid in s.pending && s.pending[pid].nonce == n && s.pending[pid].accept
  }

  /** An open nonce counts as one acceptance to come. */
  ghost predicate Covered(s: State, n: string) {
    && CountOf(s.accepts, n) + (if Open(s, n) then 1 else 0) <= CountOf(s.issues, n)
    && (forall p, q :: p in s.pending && q in s.pending && s.pending[p].nonce == n && s.pending[q].nonce == n ==> p == q)
  }

  lemma CoveredStep(s: State, e: Event, c: Config, n: string)
    requires Covered(s, n)
    requires e.Begin? && e.message.nonce == Some(n) ==> !UnderWay(s, n)
    ensures Covered(Apply(s, e, c), n)
  {
    var after := Apply(s, e, c);
    if Open(after, n) && !e.Issue? {
      if n in after.nonces {
        assert n in s.nonces;
      } else {
        var pid :| pid in after.pending && after.pending[pid].nonce == n && after.pending[pid].accept;
        if pid in s.pending {
          assert s.pending[pid] == after.pending[pid];
        }
      }
      assert Open(s, n);
    }
    if e.Finish? && e.pid in s.pending && s.pending[e.pid].nonce == n && s.pending[e.pid].accept && e.answered {
      assert Open(s, n);
      assert !Open(after, n);
    }
  }

  lemma {:induction false} AcceptancesNeverExceedIssues(now: nat, events: seq<Event>, c: Config, n: string)
    requires NoOverlap(now, events, c, n)
    ensures Covered(Run(now, events, c), n)
    ensures CountOf(Run(now, events, c).accepts, n) <= CountOf(Run(now, events, c).issues, n)
    decreases |events|
  {
    if events != [] {
      var before := events[..|events| - 1];
      assert forall i :: 0 <= i < |before| ==> events[..i] == before[..i] && events[i] == before[i];
      AcceptancesNeverExceedIssues(now, before, c, n);
      CoveredStep(Run(now, before, c), events[|events| - 1], c, n);
    }
  }

  /** A verification is set to accept if and only if the message is valid, has the right signature and no
      expiration or a soon enough one, and its nonce is answered as live. */
  lemma AcceptsIff(s: State, pid: nat, m: Message, nonceAnswered: bool, c: Config)
    requires pid !in s.pending && m.nonce != None
    ensures var v := Apply(s, Begin(pid, m, nonceAnswered), c).pending[pid];
            && v.nonce == m.nonce.value && v.readAt == s.now
            && (v.accept <==>
                  && nonceAnswered && m.nonce.value in s.nonces
                  && m.valid && m.signature == Some(true)
                  && (m.expirationTime == None || m.expirationTime.value <= s.now + 1000 * c.maxValidityPeriodInSeconds))
  {
  }

  /** A message that fails any one of its checks is never accepted, whatever else holds. */
  lemma EveryCheckCounts(s: State, pid: nat, m: Message, nonceAnswered: bool, c: Config)
    requires pid !in s.pending && m.nonce != None
    requires || !m.valid || m.signature == Some(false) || m.signature == None || m.nonce.value !in s.nonces
             || (m.expirationTime != None && m.expirationTime.value > s.now + 1000 * c.maxValidityPeriodInSeconds)
    ensures forall cleared, answered ::
              Apply(Apply(s, Begin(pid, m, nonceAnswered), c), Finish(pid, cleared, answered), c).accepts == s.accepts
  {
    AcceptsIff(s, pid, m, nonceAnswered, c);
  }

  /** However it ends, a verification whose clearing is executed leaves its nonce unusable. */
  lemma FinishedNonceIsUnusable(s: State, pid: nat, cleared: bool, answered: bool, c: Config)
    requires pid in s.pending && (cleared || answered)
    ensures var n := s.pending[pid].nonce;
            var after := Apply(s, Finish(pid, cleared, answered), c);
            && n !in after.nonces
            && forall q: nat, m: Message :: q !in after.pending && m.nonce == Some(n) ==>
                 !Apply(after, Begin(q, m, true), c).pending[q].accept
  {
  }

  /** And it stays unusable, whatever happens, until the very same nonce is issued again. */
  lemma {:induction false} UnusableUntilIssued(now: nat, before: seq<Event>, after: seq<Event>, c: Config, n: string)
    requires n !in Run(now, before, c).nonces
    requires forall i :: 0 <= i < |after| ==> after[i] != Issue(n)
    ensures n !in Run(now, before + after, c).nonces
    decreases |after|
  {
    if after == [] {
      assert before + after == before;
    } else {
      var rest := after[..|after| - 1];
      assert before + after == before + rest + [after[|after| - 1]];
      UnusableUntilIssued(now, before, rest, c, n);
      Snoc(now, before + rest, after[|after| - 1], c);
    }
  }

  /** Event `j` issued `n` no later than now, and gave it the deadline it has. */
  ghost predicate StoredBy(now: nat, events: seq<Event>, c: Config, n: string, j: nat)
    requires j < |events|
  {
    var s := Run(now, events, c);
    var issuedAt := Run(now, events[..j], c).now;
    events[j] == Issue(n) && n in s.nonces && issuedAt <= s.now && s.nonces[n] == issuedAt + MS_PER_SECOND * c.nonceTtlInSeconds
  }

  /** A live nonce was live before, with the same deadline, or has just been issued. */
  lemma NonceStep(s: State, e: Event, c: Config, n: string)
    requires n in Apply(s, e, c).nonces
    ensures s.now <= Apply(s, e, c).now
    ensures n in s.nonces ==> Apply(s, e, c).nonces[n] == s.nonces[n]
    ensures n in s.nonces && s.now < s.nonces[n] ==> Apply(s, e, c).now < s.nonces[n]
    ensures n !in s.nonces ==> e == Issue(n) && c.nonceTtlInSeconds > 0
    ensures n !in s.nonces ==>
              Apply(s, e, c).now == s.now && Apply(s, e, c).nonces[n] == s.now + MS_PER_SECOND * c.nonceTtlInSeconds
  {
  }

  lemma {:induction false} LiveNonceWasIssued(now: nat, events: seq<Event>, c: Config, n: string) returns (j: nat)
    requires n in Run(now, events, c).nonces
    ensures j < |events| && StoredBy(now, events, c, n, j)
    ensures Run(now, events, c).now < Run(now, events, c).nonces[n]
    decreases |events|
  {
    var before, e := events[..|events| - 1], events[|events| - 1];
    var s := Run(now, before, c);
    NonceStep(s, e, c, n);
    if n in s.nonces {
      j := LiveNonceWasIssued(now, before, c, n);
      assert events[..j] == before[..j] && events[j] == before[j];
    } else {
      j := |events| - 1;
    }
  }

  /** An acceptance is decided only within the time-to-live of an earlier issue of its nonce. */
  lemma AcceptedOnlyWithinTtl(now: nat, events: seq<Event>, c: Config, pid: nat, m: Message, nonceAnswered: bool)
    returns (j: nat)
    requires pid !in Run(now, events, c).pending && m.nonce.Some?
    requires Apply(Run(now, events, c), Begin(pid, m, nonceAnswered), c).pending[pid].accept
    ensures j < |events| && events[j] == Issue(m.nonce.value)
    ensures var issuedAt := Run(now, events[..j], c).now;
            issuedAt <= Run(now, events, c).now < issuedAt + MS_PER_SECOND * c.nonceTtlInSeconds
  {
    j := LiveNonceWasIssued(now, events, c, m.nonce.value);
  }

  /** Two overlapping verifications of one nonce are both accepted. */
  lemma OverlapAcceptsTwice(now: nat, c: Config, n: string) returns (events: seq<Event>)
    requires c.nonceTtlInSeconds > 0
    ensures CountOf(Run(now, events, c).issues, n) == 1 && CountOf(Run(now, events, c).accepts, n) == 2
  {
    var m := Message(Some(n), true, None, Some(true));
    var e0, e1, e2, e3, e4 := Issue(n), Begin(0, m, true), Begin(1, m, true), Finish(0, true, true), Finish(1, true, true);
    Snoc(now, [], e0, c);
    Snoc(now, [e0], e1, c);
    Snoc(now, [e0, e1], e2, c);
    Snoc(now, [e0, e1, e2], e3, c);
    Snoc(now, [e0, e1, e2, e3], e4, c);
    assert [] + [e0] == [e0] && [e0] + [e1] == [e0, e1] && [e0, e1] + [e2] == [e0, e1, e2];
    assert [e0, e1, e2] + [e3] == [e0, e1, e2, e3] && [e0, e1, e2, e3] + [e4] == [e0, e1, e2, e3, e4];
    events := [e0, e1, e2, e3, e4];
  }

  lemma Snoc(now: nat, events: seq<Event>, e: Event, c: Config)
    ensures Run(now, events + [e], c) == Apply(Run(now, events, c), e, c)
  {
    assert (events + [e])[..|events|] == events;
  }

  // ---- the repository ----

  class SiweRepository {
    var now: nat
    var nonces: map<string, nat>
    const config: Config

    constructor (now: nat, config: Config)
      ensures this.now == now && nonces == map[] && this.config == config
    {
      this.now, this.nonces, this.config := now, map[], config;
    }

    /** With a positive time-to-live the nonce can be used from now on, until the deadline it already had
        or its time-to-live from now; no other nonce is affected. */
    method GenerateNonce(nonce: string)
      modifies this`nonces
      ensures config.nonceTtlInSeconds > 0 ==>
                nonce in nonces && nonces[nonce] ==
                  if nonce in old(nonces) then old(nonces)[nonce] else now + MS_PER_SECOND * config.nonceTtlInSeconds
      ensures config.nonceTtlInSeconds == 0 ==> nonces == old(nonces)
      ensures forall n :: n != nonce ==> (n in nonces <==> n in old(nonces)) && (n in nonces ==> nonces[n] == old(nonces)[n])
    {
      nonces := Store(nonces, nonce, now, config.nonceTtlInSeconds);
    }

    /** What `getNonce` and `clearNonce` come to is a parameter; a failing `clearNonce` rejects the call. */
    method IsValidMessage(message: Message, nonceAnswered: bool, cleared: bool, answered: bool)
      returns (valid: bool, rejected: bool)
      modifies this`nonces
      ensures message.nonce.None? ==> !valid && !rejected && nonces == old(nonces)
      ensures message.nonce.Some? ==>
                var n := message.nonce.value;
                && rejected == !answered
                && nonces == (if cleared || answered then old(nonces) - {n} else old(nonces))
                && (valid && !rejected <==>
                      && answered && nonceAnswered && n in old(nonces)
                      && message.valid && message.signature == Some(true)
                      && (message.expirationTime == None ||
                            message.expirationTime.value <= now + 1000 * config.maxValidityPeriodInSeconds))
    {
      if message.nonce.None? {
        return false, false;
      }
      valid := Checks(message, nonceAnswered);
      // finally
      if cleared || answered {
        nonces := nonces - {message.nonce.value};
      }
      rejected := !answered;
      if rejected {
        valid := false;
      }
    }

    /** The body of the `try`, a throw counting as false. */
    method Checks(message: Message, nonceAnswered: bool) returns (valid: bool)
      requires message.nonce.Some?
      ensures valid <==>
                && nonceAnswered && message.nonce.value in nonces
                && message.valid && message.signature == Some(true)
                && (message.expirationTime == None ||
                      message.expirationTime.value <= now + 1000 * config.maxValidityPeriodInSeconds)
    {
      if !message.valid {
        return false;
      }
      if message.expirationTime.Some? && message.expirationTime.value > now + MS_PER_SECOND * config.maxValidityPeriodInSeconds {
        return false;
      }
      if message.signature.None? || !nonceAnswered {
        return false;
      }
      return message.signature.value && message.nonce.value in nonces;
    }
  }

  /** A fresh nonce serves one sign-in: the first call with a good message for it is accepted, the next is not. */
  method SignInOnce(repository: SiweRepository, nonce: string, first: Message, second: Message)
    returns (accepted: bool, again: bool)
    requires repository.config.nonceTtlInSeconds > 0
    requires first.nonce == Some(nonce) && first.valid && first.signature == Some(true)
    requires first.expirationTime == None ||
               first.expirationTime.value <= repository.now + 1000 * repository.config.maxValidityPeriodInSeconds
    requires second.nonce == Some(nonce)
    modifies repository`nonces
    ensures accepted && !again && nonce !in repository.nonces
  {
    repository.GenerateNonce(nonce);
    var rejected;
    accepted, rejected := repository.IsValidMessage(first, true, true, true);
    again, rejected := repository.IsValidMessage(second, true, true, true);
  }

  /** A call that nothing interrupts is a `Begin` and its `Finish`. */
  lemma CallIsBeginFinish(s: State, pid: nat, m: Message, nonceAnswered: bool, cleared: bool, answered: bool, c: Config)
    requires pid !in s.pending && m.nonce.Some?
    ensures var n := m.nonce.value;
            var after := Apply(Apply(s, Begin(pid, m, nonceAnswered), c), Finish(pid, cleared, answered), c);
            && after.nonces == (if cleared || answered then s.nonces - {n} else s.nonces)
            && CountOf(after.accepts, n) == CountOf(s.accepts, n) +
                 (if && answered && nonceAnswered && n in s.nonces && m.valid && m.signature == Some(true)
                     && (m.expirationTime == None || m.expirationTime.value <= s.now + 1000 * c.maxValidityPeriodInSeconds)
                  then 1 else 0)
            && after.pending == s.pending && after.issues == s.issues
  {
  }
}
