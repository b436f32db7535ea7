/**
 The cache protocol of src/datasources/cache/redis.cache.service.ts and
 src/datasources/cache/cache.first.data.source.ts, as a state machine over processes that share
 one Redis store. One event is one Redis command, one clock reading or one network reply of one
 process; any two events of different processes may follow each other.

 A stored value carries its provenance (which the protocol itself never looks at, apart from the
 milliseconds of a stamp): the events at which a request looked up the stamp, at which a value was
 written, and at which an invalidation unlinked its key.
 */
module CacheProtocol {
  import opened Prelude
  import opened RedisStore

  datatype Content =
    | Success(started: nat, checkedAt: nat)            // a response body; the request began at `started` ms
    | NotFound                                         // a cached 404
    | Stamp(of: string, ms: nat, unlinkedAt: nat)      // an invalidation time of key `of`
    | Other                                            // a value of any other `hSet`

  datatype Stored = Stored(content: Content, wroteAt: nat)

  type Seconds = n: nat | n > 0 witness 1

  datatype Write = Write(key: string, field: string, content: Content, ttl: Seconds)

  datatype Stage = ToSet | ToExpire | ToUndo

  datatype Request = Request(key: string, field: string, ttl: int, notFoundTtl: int)

  datatype Process =
    | Reading(r: Request)                              // CacheFirstDataSource.get: the cache lookup
    | Missed(r: Request)                               // about to read the clock
    | Fetching(r: Request, started: nat)               // waiting for the network
    | Checking(r: Request, started: nat)               // the stamp lookup
    | Unlinking(key: string)                           // deleteByKey
    | Stamping(key: string, unlinkedAt: nat)           // about to read the clock
    | Writing(w: Write, stage: Stage)                  // inside hSet
    | Finished

  datatype State = State(
    store: Store<Stored>,
    step: nat,                                         // events so far
    procs: map<nat, Process>,
    leaked: set<(string, string)>)                     // undated fields whose compensating HDEL was not executed

  datatype Network = Body | Status404 | OtherError

  datatype Event =
    | Tick(ms: nat)
    | StartGet(pid: nat, r: Request)
    | StartDelete(pid: nat, key: string)
    | StartSet(pid: nat, key: string, field: string, ttl: int)
    | Step(pid: nat, reply: Reply, network: Network, ready: bool)

  const STAMP_PREFIX := "invalidationTimeMs:"

  function StampKey(key: string): (s: string)
    ensures IsStampKey(s)
  {
    STAMP_PREFIX + key
  }

  predicate IsStampKey(key: string) {
    STAMP_PREFIX <= key
  }

  lemma StampKeyInjective(a: string, b: string)
    requires StampKey(a) == StampKey(b)
    ensures a == b
  {
    assert a == StampKey(a)[|STAMP_PREFIX|..];
    assert b == StampKey(b)[|STAMP_PREFIX|..];
  }

  /** Callers name entries of the cache, never the stamps that go with them. */
  predicate Legal(e: Event) {
    match e
    case StartGet(_, r) => !IsStampKey(r.key)
    case StartDelete(_, key) => !IsStampKey(key)
    case StartSet(_, key, _, _) => !IsStampKey(key)
    case _ => true
  }

  /** Calling `hSet`: nothing is sent without a positive expiry or while the client is not ready. */
  function CallHSet(key: string, field: string, content: Content, ttl: int, ready: bool): Process {
    if ready && ttl > 0 then Writing(Write(key, field, content, ttl), ToSet) else Finished
  }

  /** `_shouldBeCached`: no stamp, or a stamp strictly older than the request. */
  predicate ShouldBeCached(stamp: Option<Stored>, started: nat) {
    stamp.None? || (stamp.value.content.Stamp? && stamp.value.content.ms < started)
  }

  /** Where a process goes next. */
  function NextProcess(p: Process, s: State, e: Event, defaultTtl: int): Process
    requires e.Step?
  {
    match p
    case Reading(r) => if e.reply == Done && HGet(s.store, r.key, r.field).None? then Missed(r) else Finished
    case Missed(r) => Fetching(r, s.store.now)
    case Fetching(r, started) => (
      match e.network
      case Body => Checking(r, started)
      case Status404 => CallHSet(r.key, r.field, NotFound, r.notFoundTtl, e.ready)
      case OtherError => Finished)
    case Checking(r, started) =>
      if e.reply == Done && ShouldBeCached(HGet(s.store, StampKey(r.key), ""), started) then
        CallHSet(r.key, r.field, Success(started, s.step), r.ttl, e.ready)
      else Finished
    case Unlinking(key) => if e.reply == Done then Stamping(key, s.step) else Finished
    case Stamping(key, unlinkedAt) =>
      CallHSet(StampKey(key), "", Stamp(key, s.store.now, unlinkedAt), defaultTtl, e.ready)
    case Writing(w, stage) => (
      match stage
      case ToSet => Writing(w, if e.reply == Done then ToExpire else ToUndo)
      case ToExpire => if e.reply == Done then Finished else Writing(w, ToUndo)
      case ToUndo => Finished)
    case Finished => Finished
  }

  /** What the step's command does to the store. */
  function NextStore(p: Process, s: State, e: Event): Store<Stored>
    requires e.Step?
  {
    match p
    case Unlinking(key) => Under(e.reply, s.store, Unlink(s.store, key))
    case Writing(w, ToSet) => Under(e.reply, s.store, HSet(s.store, w.key, w.field, Stored(w.content, s.step)))
    case Writing(w, ToExpire) => Under(e.reply, s.store, ExpireNx(s.store, w.key, w.ttl))
    case Writing(w, ToUndo) => Under(e.reply, s.store, HDel(s.store, w.key, w.field))
    case _ => s.store
  }

  /** A field of a key without a deadline: it stays until somebody deletes it. */
  predicate Undated(store: Store<Stored>, key: string, field: string) {
    Has(store, key, field) && store.hashes[key].deadline.None?
  }

  function NextLeaked(p: Process, s: State, e: Event): set<(string, string)>
    requires e.Step?
  {
    var added := if p.Writing? && p.stage == ToUndo && e.reply == Failed then {(p.w.key, p.w.field)} else {};
    set x | x in s.leaked + added && Undated(NextStore(p, s, e), x.0, x.1)
  }

  function Start(s: State, pid: nat, p: Process): State {
    if pid in s.procs then s else s.(procs := s.procs[pid := p], step := s.step + 1)
  }

  function Apply(s: State, e: Event, defaultTtl: int): State {
    match e
    case Tick(ms) =>
      var store := Advance(s.store, ms);
      State(store, s.step + 1, s.procs, set x | x in s.leaked && Undated(store, x.0, x.1))
    case StartGet(pid, r) => Start(s, pid, Reading(r))
    case StartDelete(pid, key) => Start(s, pid, Unlinking(key))
    case StartSet(pid, key, field, ttl) => Start(s, pid, CallHSet(key, field, Other, ttl, true))
    case Step(pid, _, _, _) =>
      if pid !in s.procs then s
      else
        var p := s.procs[pid];
        State(NextStore(p, s, e), s.step + 1, s.procs[pid := NextProcess(p, s, e, defaultTtl)], NextLeaked(p, s, e))
  }

  function Init(now: nat): State {
    State(Store(now, map[], map[]), 0, map[], {})
  }

  function Run(s: State, events: seq<Event>, defaultTtl: int): State
    decreases |events|
  {
    if events == [] then s
    else Apply(Run(s, events[..|events| - 1], defaultTtl), events[|events| - 1], defaultTtl)
  }

  ghost predicate AllLegal(events: seq<Event>) {
    forall i :: 0 <= i < |events| ==> Legal(events[i])
  }

  // ------------------------------------------------------------------ freshness

  /** A success entry that is not newer than the stamp passed its check before the stamp was written
      and was itself written after that invalidation's unlink. */
  predicate NotStale(entry: Stored, stamp: Stored) {
    entry.content.Success? && stamp.content.Stamp? && entry.content.started <= stamp.content.ms ==>
      entry.content.checkedAt < stamp.wroteAt && stamp.content.unlinkedAt < entry.wroteAt
  }

  ghost predicate FreshStore(store: Store<Stored>) {
    forall k, f :: !IsStampKey(k) && Has(store, k, f) && Has(store, StampKey(k), "") ==>
      NotStale(Get(store, k, f), Get(store, StampKey(k), ""))
  }

  /** An entry's provenance lies in the past and suits its key. */
  predicate EntryOk(key: string, field: string, v: Stored, step: nat) {
    && v.wroteAt < step
    && match v.content
       case Success(_, checkedAt) => !IsStampKey(key) && checkedAt < step
       case Stamp(of, _, unlinkedAt) => !IsStampKey(of) && key == StampKey(of) && field == "" && unlinkedAt < step
       case _ => !IsStampKey(key)
  }

  ghost predicate StoreOk(store: Store<Stored>, step: nat) {
    forall k, f :: Has(store, k, f) ==> EntryOk(k, f, Get(store, k, f), step)
  }

  /** Everything under `key` was written after event `at`. */
  ghost predicate EntriesAfter(store: Store<Stored>, key: string, at: nat) {
    forall f :: Has(store, key, f) ==> at < Get(store, key, f).wroteAt
  }

  /** A pending write of a success that is not newer than the live stamp passed its check before it. */
  predicate PendingNotStale(store: Store<Stored>, key: string, started: nat, checkedAt: nat) {
    Has(store, StampKey(key), "") ==>
      var stamp := Get(store, StampKey(key), "");
      stamp.content.Stamp? && started <= stamp.content.ms ==> checkedAt < stamp.wroteAt
  }

  ghost predicate WriteOk(store: Store<Stored>, step: nat, w: Write, stage: Stage) {
    match w.content
    case Success(started, checkedAt) =>
      && !IsStampKey(w.key) && checkedAt < step
      && (stage == ToSet ==> PendingNotStale(store, w.key, started, checkedAt))
    case Stamp(of, _, unlinkedAt) =>
      && !IsStampKey(of) && w.key == StampKey(of) && w.field == "" && unlinkedAt < step
      && (stage == ToSet ==> EntriesAfter(store, of, unlinkedAt))
    case _ => !IsStampKey(w.key)
  }

  ghost predicate ProcessOk(store: Store<Stored>, step: nat, p: Process) {
    match p
    case Reading(r) => !IsStampKey(r.key)
    case Missed(r) => !IsStampKey(r.key)
    case Fetching(r, _) => !IsStampKey(r.key)
    case Checking(r, _) => !IsStampKey(r.key)
    case Unlinking(key) => !IsStampKey(key)
    case Stamping(key, unlinkedAt) => !IsStampKey(key) && unlinkedAt < step && EntriesAfter(store, key, unlinkedAt)
    case Writing(w, stage) => WriteOk(store, step, w, stage)
    case Finished => true
  }

  ghost predicate FreshInv(s: State) {
    && StoreOk(s.store, s.step)
    && FreshStore(s.store)
    && forall pid :: pid in s.procs ==> ProcessOk(s.store, s.step, s.procs[pid])
  }

  /** `small` holds nothing that `big` does not hold. */
  ghost predicate Sub(small: Store<Stored>, big: Store<Stored>) {
    forall k, f :: Has(small, k, f) ==> Has(big, k, f) && Get(small, k, f) == Get(big, k, f)
  }

  lemma ShrinkKeepsStore(small: Store<Stored>, big: Store<Stored>, step: nat)
    requires Sub(small, big) && StoreOk(big, step) && FreshStore(big)
    ensures StoreOk(small, step + 1) && FreshStore(small)
  {
    forall k, f | Has(small, k, f) ensures EntryOk(k, f, Get(small, k, f), step + 1) {
      assert EntryOk(k, f, Get(big, k, f), step);
    }
    forall k, f | !IsStampKey(k) && Has(small, k, f) && Has(small, StampKey(k), "")
      ensures NotStale(Get(small, k, f), Get(small, StampKey(k), ""))
    {
      assert NotStale(Get(big, k, f), Get(big, StampKey(k), ""));
    }
  }

  lemma ShrinkKeepsProcess(small: Store<Stored>, big: Store<Stored>, step: nat, p: Process)
    requires Sub(small, big) && ProcessOk(big, step, p)
    ensures ProcessOk(small, step + 1, p)
  {
  }

  /** HSET under a data key keeps every other process's claim. */
  lemma PutKeepsProcess(store: Store<Stored>, step: nat, key: string, field: string, v: Stored, p: Process)
    requires ProcessOk(store, step, p) && v.wroteAt == step && EntryOk(key, field, v, step + 1)
    ensures ProcessOk(HSet(store, key, field, v), step + 1, p)
  {
    var after := HSet(store, key, field, v);
    if p.Writing? && p.w.content.Success? && p.stage == ToSet {
      var c := p.w.content;
      assert PendingNotStale(store, p.w.key, c.started, c.checkedAt);
      assert PendingNotStale(after, p.w.key, c.started, c.checkedAt) by {
        if key == StampKey(p.w.key) && field == "" {
          assert Get(after, key, field) == v;
        } else {
          assert Has(after, StampKey(p.w.key), "") <==> Has(store, StampKey(p.w.key), "");
        }
      }
    }
    if p.Stamping? {
      PutKeepsEntriesAfter(store, step, key, field, v, p.key, p.unlinkedAt);
    }
    if p.Writing? && p.w.content.Stamp? && p.stage == ToSet {
      PutKeepsEntriesAfter(store, step, key, field, v, p.w.content.of, p.w.content.unlinkedAt);
    }
  }

  lemma PutKeepsEntriesAfter(store: Store<Stored>, step: nat, key: string, field: string, v: Stored, of: string, at: nat)
    requires EntriesAfter(store, of, at) && at < step && v.wroteAt == step
    ensures EntriesAfter(HSet(store, key, field, v), of, at)
  {
    var after := HSet(store, key, field, v);
    forall f | Has(after, of, f) ensures at < Get(after, of, f).wroteAt {
      if of != key || f != field {
        assert Has(store, of, f) && Get(after, of, f) == Get(store, of, f);
      }
    }
  }

  /** HSET by a process whose claim holds keeps the store fresh. */
  lemma PutKeepsStore(store: Store<Stored>, step: nat, w: Write)
    requires StoreOk(store, step) && FreshStore(store) && WriteOk(store, step, w, ToSet)
    ensures var v := Stored(w.content, step);
            && EntryOk(w.key, w.field, v, step + 1)
            && StoreOk(HSet(store, w.key, w.field, v), step + 1)
            && FreshStore(HSet(store, w.key, w.field, v))
  {
    var v := Stored(w.content, step);
    var after := HSet(store, w.key, w.field, v);
    forall k, f | Has(after, k, f) ensures EntryOk(k, f, Get(after, k, f), step + 1) {
      if k != w.key || f != w.field {
        assert Has(store, k, f) && Get(after, k, f) == Get(store, k, f);
        assert EntryOk(k, f, Get(store, k, f), step);
      }
    }
    forall k, f | !IsStampKey(k) && Has(after, k, f) && Has(after, StampKey(k), "")
      ensures NotStale(Get(after, k, f), Get(after, StampKey(k), ""))
    {
      if StampKey(k) == w.key && "" == w.field {
        assert Has(store, k, f) && Get(after, k, f) == Get(store, k, f);
        assert EntryOk(k, f, Get(store, k, f), step);
        if w.content.Stamp? {
          StampKeyInjective(k, w.content.of);
        }
      } else {
        assert Has(store, StampKey(k), "") && Get(after, StampKey(k), "") == Get(store, StampKey(k), "");
        var stamp := Get(store, StampKey(k), "");
        assert EntryOk(StampKey(k), "", stamp, step);
        if k != w.key || f != w.field {
          assert Has(store, k, f) && Get(after, k, f) == Get(store, k, f);
          assert NotStale(Get(store, k, f), stamp);
        }
      }
    }
  }

  lemma CommandsShrink(p: Process, s: State, e: Event)
    requires e.Step?
    requires !(p.Writing? && p.stage == ToSet && e.reply != Failed)
    ensures Sub(NextStore(p, s, e), s.store)
  {
  }

  /** The acting process's own claim holds of where it goes. */
  lemma MoverKeepsClaim(s: State, pid: nat, e: Event, defaultTtl: int)
    requires FreshInv(s) && e.Step? && pid in s.procs
    ensures var p := s.procs[pid];
            ProcessOk(NextStore(p, s, e), s.step + 1, NextProcess(p, s, e, defaultTtl))
  {
    var p := s.procs[pid];
    assert ProcessOk(s.store, s.step, p);
  }

  lemma FreshStep(s: State, e: Event, defaultTtl: int)
    requires FreshInv(s) && Legal(e)
    ensures FreshInv(Apply(s, e, defaultTtl))
  {
    var after := Apply(s, e, defaultTtl);
    match e {
      case Tick(ms) =>
        ShrinkKeepsStore(after.store, s.store, s.step);
        forall i | i in after.procs ensures ProcessOk(after.store, after.step, after.procs[i]) {
          ShrinkKeepsProcess(after.store, s.store, s.step, s.procs[i]);
        }
      case Step(pid, reply, _, _) =>
        if pid in s.procs {
          var p := s.procs[pid];
          MoverKeepsClaim(s, pid, e, defaultTtl);
          if p.Writing? && p.stage == ToSet && reply != Failed {
            PutKeepsStore(s.store, s.step, p.w);
            forall i | i in after.procs && i != pid ensures ProcessOk(after.store, after.step, after.procs[i]) {
              PutKeepsProcess(s.store, s.step, p.w.key, p.w.field, Stored(p.w.content, s.step), s.procs[i]);
            }
          } else {
            CommandsShrink(p, s, e);
            ShrinkKeepsStore(after.store, s.store, s.step);
            forall i | i in after.procs && i != pid ensures ProcessOk(after.store, after.step, after.procs[i]) {
              ShrinkKeepsProcess(after.store, s.store, s.step, s.procs[i]);
            }
          }
        }
      case _ =>
        ShrinkKeepsStore(s.store, s.store, s.step);
        forall i | i in after.procs ensures ProcessOk(after.store, after.step, after.procs[i]) {
          if i in s.procs {
            ShrinkKeepsProcess(s.store, s.store, s.step, s.procs[i]);
          }
        }
    }
  }

  lemma {:induction false} FreshRun(now: nat, events: seq<Event>, defaultTtl: int)
    requires AllLegal(events)
    ensures FreshInv(Run(Init(now), events, defaultTtl))
    decreases |events|
  {
    if events != [] {
      FreshRun(now, events[..|events| - 1], defaultTtl);
      FreshStep(Run(Init(now), events[..|events| - 1], defaultTtl), events[|events| - 1], defaultTtl);
    }
  }

  /**
   * In every interleaving: if a cached success comes from a request that started at or before the
   * time in the live stamp of its key, then its stamp lookup ran before that stamp was written
   * and its write ran after that invalidation's unlink.
   */
  lemma StaleSuccessOnlyByOverlap(now: nat, events: seq<Event>, defaultTtl: int, key: string, field: string)
    requires AllLegal(events) && !IsStampKey(key)
    requires var store := Run(Init(now), events, defaultTtl).store;
             && Has(store, key, field) && Has(store, StampKey(key), "")
             && Get(store, key, field).content.Success?
    ensures var store := Run(Init(now), events, defaultTtl).store;
            var entry, stamp := Get(store, key, field), Get(store, StampKey(key), "");
            && stamp.content.Stamp? && stamp.content.of == key
            && (entry.content.started <= stamp.content.ms ==>
                  entry.content.checkedAt < stamp.wroteAt && stamp.content.unlinkedAt < entry.wroteAt)
  {
    FreshRun(now, events, defaultTtl);
    var s := Run(Init(now), events, defaultTtl);
    assert EntryOk(StampKey(key), "", Get(s.store, StampKey(key), ""), s.step);
    assert NotStale(Get(s.store, key, field), Get(s.store, StampKey(key), ""));
    if Get(s.store, StampKey(key), "").content.Stamp? {
      StampKeyInjective(key, Get(s.store, StampKey(key), "").content.of);
    }
  }

  /** When the request's check-and-write ran entirely before the unlink, or entirely after the stamp's write,
      the cached success is newer than the live stamp of its key. */
  lemma FreshWithoutOverlap(now: nat, events: seq<Event>, defaultTtl: int, key: string, field: string)
    requires AllLegal(events) && !IsStampKey(key)
    requires var store := Run(Init(now), events, defaultTtl).store;
             && Has(store, key, field) && Has(store, StampKey(key), "")
             && Get(store, key, field).content.Success?
             && var entry, stamp := Get(store, key, field), Get(store, StampKey(key), "");
                (stamp.content.Stamp? ==>
                   entry.wroteAt <= stamp.content.unlinkedAt || stamp.wroteAt <= entry.content.checkedAt)
    ensures var store := Run(Init(now), events, defaultTtl).store;
            Get(store, StampKey(key), "").content.Stamp?
            && Get(store, key, field).content.started > Get(store, StampKey(key), "").content.ms
  {
    StaleSuccessOnlyByOverlap(now, events, defaultTtl, key, field);
  }

  // ------------------------------------------------------------------ the guard, and what it does not cover

  lemma RunSnoc(s: State, events: seq<Event>, e: Event, defaultTtl: int)
    ensures Run(s, events + [e], defaultTtl) == Apply(Run(s, events, defaultTtl), e, defaultTtl)
  {
    assert (events + [e])[..|events|] == events;
  }

  /** A request whose lookup finds the entry, or is not answered, ends there and changes nothing. */
  lemma HitEndsRequest(s: State, pid: nat, e: Event, defaultTtl: int)
    requires e.Step? && e.pid == pid && pid in s.procs && s.procs[pid].Reading?
    requires e.reply != Done || Has(s.store, s.procs[pid].r.key, s.procs[pid].r.field)
    ensures Apply(s, e, defaultTtl).procs[pid] == Finished && Apply(s, e, defaultTtl).store == s.store
  {
  }

  /** A late success is dropped: a lookup that finds a stamp not older than the request ends the process. */
  lemma StampBlocksLateSuccess(s: State, pid: nat, e: Event, defaultTtl: int)
    requires e.Step? && e.pid == pid && pid in s.procs && s.procs[pid].Checking?
    requires Has(s.store, StampKey(s.procs[pid].r.key), "")
    requires var stamp := Get(s.store, StampKey(s.procs[pid].r.key), "").content;
             stamp.Stamp? && s.procs[pid].started <= stamp.ms
    ensures Apply(s, e, defaultTtl).procs[pid] == Finished && Apply(s, e, defaultTtl).store == s.store
  {
  }

  /** A late 404 is not: whatever stamp is live, it is cached under its own expiry. */
  lemma LateNotFoundIsCached(s: State, pid: nat, defaultTtl: int)
    requires pid in s.procs && s.procs[pid].Fetching? && s.procs[pid].r.notFoundTtl > 0
    ensures var r := s.procs[pid].r;
            var after := Apply(Apply(s, Step(pid, Done, Status404, true), defaultTtl),
                               Step(pid, Done, OtherError, true), defaultTtl);
            Has(after.store, r.key, r.field) && Get(after.store, r.key, r.field).content == NotFound
  {
  }

  /** The overlap allowed above does happen: a request that misses, fetches and checks, then an
      invalidation that runs to its end, then the request's write. */
  lemma OverlapLeavesStaleSuccess(now: nat, key: string, field: string, ttl: Seconds, defaultTtl: Seconds)
    returns (events: seq<Event>)
    requires !IsStampKey(key)
    ensures AllLegal(events)
    ensures var store := Run(Init(now), events, defaultTtl).store;
            && Has(store, key, field) && Has(store, StampKey(key), "")
            && Get(store, key, field).content.Success? && Get(store, StampKey(key), "").content.Stamp?
            && Get(store, key, field).content.started <= Get(store, StampKey(key), "").content.ms
  {
    var s;
    s, events := CheckedRequest(now, key, field, ttl, defaultTtl);
    // the invalidation: unlink, clock, stamp
    s, events := Extend(now, s, events, StartDelete(1, key), defaultTtl);
    s, events := Extend(now, s, events, Go(1), defaultTtl);
    s, events := Extend(now, s, events, Go(1), defaultTtl);
    s, events := Extend(now, s, events, Go(1), defaultTtl);
    assert Get(s.store, StampKey(key), "").content == Stamp(key, now, 6);
    // the request's write
    s, events := Extend(now, s, events, Go(0), defaultTtl);
  }

  function Go(pid: nat): Event {
    Step(pid, Done, Body, true)
  }

  /** The next `n` steps, all of one process, all going through. */
  function Alone(s: State, pid: nat, n: nat, defaultTtl: int): State
    decreases n
  {
    if n == 0 then s else Alone(Apply(s, Go(pid), defaultTtl), pid, n - 1, defaultTtl)
  }

  lemma TwoAlone(s: State, pid: nat, n: nat, defaultTtl: int)
    requires n >= 2
    ensures Alone(s, pid, n, defaultTtl) ==
            Alone(Apply(Apply(s, Go(pid), defaultTtl), Go(pid), defaultTtl), pid, n - 2, defaultTtl)
  {
  }

  /** An uninterrupted invalidation: nothing is left under the key, and its stamp carries the present time. */
  lemma UninterruptedDelete(s: State, pid: nat, defaultTtl: Seconds)
    requires pid in s.procs && s.procs[pid].Unlinking?
    ensures var key := s.procs[pid].key;
            var after := Alone(s, pid, 4, defaultTtl);
            && after.procs == s.procs[pid := Finished]
            && (forall f :: !Has(after.store, key, f))
            && HGet(after.store, StampKey(key), "") == Some(Stored(Stamp(key, s.store.now, s.step), s.step + 2))
            && after.store.hashes[StampKey(key)].deadline.Some?
  {
    var key := s.procs[pid].key;
    assert |StampKey(key)| > |key|;
    var s1 := Apply(s, Go(pid), defaultTtl);
    var s2 := Apply(s1, Go(pid), defaultTtl);
    assert s2.procs == s.procs[pid := Writing(Write(StampKey(key), "", Stamp(key, s.store.now, s.step), defaultTtl), ToSet)];
    var s3 := Apply(s2, Go(pid), defaultTtl);
    var s4 := Apply(s3, Go(pid), defaultTtl);
    TwoAlone(s, pid, 4, defaultTtl);
    TwoAlone(s2, pid, 2, defaultTtl);
    assert s4.procs == s.procs[pid := Finished];
  }

  /** An uninterrupted `hSet` of any other value leaves it under its key with a deadline, or does nothing
      without a positive time-to-live. */
  lemma UninterruptedSet(s: State, pid: nat, key: string, field: string, ttl: int, defaultTtl: int)
    requires pid !in s.procs
    ensures var after := Alone(Apply(s, StartSet(pid, key, field, ttl), defaultTtl), pid, 2, defaultTtl);
            && after.procs == s.procs[pid := Finished]
            && (ttl <= 0 ==> after.store == s.store)
            && (ttl > 0 ==> HGet(after.store, key, field) == Some(Stored(Other, s.step + 1)) && after.store.hashes[key].deadline.Some?)
  {
    var s1 := Apply(s, StartSet(pid, key, field, ttl), defaultTtl);
    var s2 := Apply(s1, Go(pid), defaultTtl);
    var s3 := Apply(s2, Go(pid), defaultTtl);
    TwoAlone(s1, pid, 2, defaultTtl);
    assert s3.procs == s.procs[pid := Finished];
  }

  /** An uninterrupted miss: the body is cached, under the time the request began, if and only if there is
      no stamp or it is strictly older. */
  lemma UninterruptedMiss(s: State, pid: nat, defaultTtl: int)
    requires pid in s.procs && s.procs[pid].Reading? && s.procs[pid].r.ttl > 0
    requires var r := s.procs[pid].r; !Has(s.store, r.key, r.field)
    ensures var r := s.procs[pid].r;
            var after := Alone(s, pid, 6, defaultTtl);
            && after.procs == s.procs[pid := Finished]
            && var stamp := HGet(s.store, StampKey(r.key), "");
               var body := Some(Stored(Success(s.store.now, s.step + 3), s.step + 4));
               && (stamp == None ==> HGet(after.store, r.key, r.field) == body)
               && (stamp != None && stamp.value.content.Stamp? ==>
                     HGet(after.store, r.key, r.field) == if stamp.value.content.ms < s.store.now then body else None)
  {
    var r := s.procs[pid].r;
    var s1 := Apply(s, Go(pid), defaultTtl);
    var s2 := Apply(s1, Go(pid), defaultTtl);
    var s3 := Apply(s2, Go(pid), defaultTtl);
    assert s3.store == s.store && s3.step == s.step + 3 && s3.procs == s.procs[pid := Checking(r, s.store.now)];
    var s4 := Apply(s3, Go(pid), defaultTtl);
    var s5 := Apply(s4, Go(pid), defaultTtl);
    var s6 := Apply(s5, Go(pid), defaultTtl);
    TwoAlone(s, pid, 6, defaultTtl);
    TwoAlone(s2, pid, 4, defaultTtl);
    TwoAlone(s4, pid, 2, defaultTtl);
    assert s6.procs == s.procs[pid := Finished];
  }

  /** A request that has missed, read the clock, fetched and passed its stamp lookup. */
  lemma CheckedRequest(now: nat, key: string, field: string, ttl: Seconds, defaultTtl: Seconds)
    returns (s: State, events: seq<Event>)
    requires !IsStampKey(key)
    ensures s == Run(Init(now), events, defaultTtl) && AllLegal(events)
    ensures s == State(Store(now, map[], map[]), 5, map[0 := Writing(Write(key, field, Success(now, 4), ttl), ToSet)], {})
  {
    s, events := Init(now), [];
    s, events := Extend(now, s, events, StartGet(0, Request(key, field, ttl, ttl)), defaultTtl);
    s, events := Extend(now, s, events, Go(0), defaultTtl);
    s, events := Extend(now, s, events, Go(0), defaultTtl);
    s, events := Extend(now, s, events, Go(0), defaultTtl);
    s, events := Extend(now, s, events, Go(0), defaultTtl);
    assert s.procs == map[0 := Writing(Write(key, field, Success(now, 4), ttl), ToSet)];
  }

  lemma Extend(now: nat, s: State, events: seq<Event>, e: Event, defaultTtl: int) returns (t: State, more: seq<Event>)
    requires s == Run(Init(now), events, defaultTtl) && AllLegal(events) && Legal(e)
    ensures more == events + [e] && t == Apply(s, e, defaultTtl)
    ensures t == Run(Init(now), more, defaultTtl) && AllLegal(more)
  {
    t, more := Apply(s, e, defaultTtl), events + [e];
    RunSnoc(Init(now), events, e, defaultTtl);
  }

  // ------------------------------------------------------------------ deadlines

  /** Some `hSet` of this field has sent its HSET and not finished. */
  ghost predicate InFlight(s: State, key: string, field: string) {
    exists pid :: pid in s.procs && InFlightBy(s.procs[pid], key, field)
  }

  predicate InFlightBy(p: Process, key: string, field: string) {
    p.Writing? && p.stage != ToSet && p.w.key == key && p.w.field == field
  }

  ghost predicate UndatedInv(s: State) {
    forall k, f :: Undated(s.store, k, f) ==> InFlight(s, k, f) || (k, f) in s.leaked
  }

  lemma UndatedStep(s: State, e: Event, defaultTtl: int)
    requires UndatedInv(s)
    ensures UndatedInv(Apply(s, e, defaultTtl))
  {
    var after := Apply(s, e, defaultTtl);
    forall k, f | Undated(after.store, k, f) ensures InFlight(after, k, f) || (k, f) in after.leaked {
      if e.Step? && e.pid in s.procs && InFlightBy(after.procs[e.pid], k, f) {
      } else if Undated(s.store, k, f) {
        if InFlight(s, k, f) {
          var pid :| pid in s.procs && InFlightBy(s.procs[pid], k, f);
          if e.Step? && pid == e.pid {
            assert (k, f) in after.leaked;
          } else {
            assert pid in after.procs && InFlightBy(after.procs[pid], k, f);
          }
        }
      }
    }
  }

  /** In every interleaving, a field of a live key without a deadline belongs to an `hSet` still in
      flight, or its compensating HDEL was not executed. */
  lemma {:induction false} UndatedOnlyInFlight(now: nat, events: seq<Event>, defaultTtl: int)
    ensures UndatedInv(Run(Init(now), events, defaultTtl))
    decreases |events|
  {
    if events != [] {
      UndatedOnlyInFlight(now, events[..|events| - 1], defaultTtl);
      UndatedStep(Run(Init(now), events[..|events| - 1], defaultTtl), events[|events| - 1], defaultTtl);
    }
  }

  function StateAt(now: nat, events: seq<Event>, i: nat, defaultTtl: int): State
    requires i <= |events|
  {
    Run(Init(now), events[..i], defaultTtl)
  }

  lemma NextState(now: nat, events: seq<Event>, i: nat, defaultTtl: int)
    requires i < |events|
    ensures StateAt(now, events, i + 1, defaultTtl) == Apply(StateAt(now, events, i, defaultTtl), events[i], defaultTtl)
  {
    assert events[..i + 1] == events[..i] + [events[i]];
    RunSnoc(Init(now), events[..i], events[i], defaultTtl);
  }

  /** Event `i` is a compensating HDEL that was not executed. */
  predicate UndoFails(now: nat, events: seq<Event>, i: nat, defaultTtl: int)
    requires i < |events|
  {
    var s, e := StateAt(now, events, i, defaultTtl), events[i];
    e.Step? && e.pid in s.procs && s.procs[e.pid].Writing? && s.procs[e.pid].stage == ToUndo && e.reply == Failed
  }

  /** When no compensating HDEL fails, every undated field belongs to an `hSet` still in flight. */
  lemma UndatedInFlightWhenUndoesSucceed(now: nat, events: seq<Event>, defaultTtl: int, key: string, field: string)
    requires forall i :: 0 <= i < |events| ==> !UndoFails(now, events, i, defaultTtl)
    requires Undated(Run(Init(now), events, defaultTtl).store, key, field)
    ensures InFlight(Run(Init(now), events, defaultTtl), key, field)
  {
    UndatedOnlyInFlight(now, events, defaultTtl);
    assert events[..|events|] == events;
    NothingLeaks(now, events, |events|, defaultTtl);
  }

  lemma {:induction false} NothingLeaks(now: nat, events: seq<Event>, n: nat, defaultTtl: int)
    requires n <= |events| && forall i :: 0 <= i < n ==> !UndoFails(now, events, i, defaultTtl)
    ensures StateAt(now, events, n, defaultTtl).leaked == {}
    decreases n
  {
    if n > 0 {
      NothingLeaks(now, events, n - 1, defaultTtl);
      NextState(now, events, n - 1, defaultTtl);
      assert !UndoFails(now, events, n - 1, defaultTtl);
    }
  }

  /** Conversely a failing EXPIRE followed by a failing HDEL leaves a field that no process owns and no deadline ends. */
  lemma FailedUndoLeaks(s: State, pid: nat, defaultTtl: int)
    requires pid in s.procs && s.procs[pid].Writing? && s.procs[pid].stage == ToExpire
    requires Undated(s.store, s.procs[pid].w.key, s.procs[pid].w.field)
    requires forall q :: q in s.procs && q != pid ==> !InFlightBy(s.procs[q], s.procs[pid].w.key, s.procs[pid].w.field)
    ensures var w := s.procs[pid].w;
            var after := Apply(Apply(s, Step(pid, Failed, Body, true), defaultTtl),
                               Step(pid, Failed, Body, true), defaultTtl);
            Undated(after.store, w.key, w.field) && !InFlight(after, w.key, w.field)
            && (w.key, w.field) in after.leaked
  {
  }

  lemma {:induction false} StaysLive(now: nat, events: seq<Event>, defaultTtl: int)
    ensures Live(Run(Init(now), events, defaultTtl).store)
    decreases |events|
  {
    if events != [] {
      var e := events[|events| - 1];
      var s := Run(Init(now), events[..|events| - 1], defaultTtl);
      StaysLive(now, events[..|events| - 1], defaultTtl);
      if e.Tick? {
        AdvanceKeepsStoreLive(s.store, e.ms);
      } else if e.Step? && e.pid in s.procs {
        var p := s.procs[e.pid];
        if p.Writing? {
          CommandsKeepStoreLive(s.store, p.w.key, p.w.field, Stored(p.w.content, s.step), p.w.ttl);
          HDelKeepsStoreLive(s.store, p.w.key, p.w.field);
        } else if p.Unlinking? {
          CommandsKeepStoreLive(s.store, p.key, "", Stored(Other, 0), 1);
        }
      }
    }
  }

  /** One event never moves the deadline of a key that lives on. */
  lemma DeadlineFixed(s: State, e: Event, defaultTtl: int, key: string)
    requires key in s.store.hashes && s.store.hashes[key].deadline.Some?
    requires key in Apply(s, e, defaultTtl).store.hashes
    ensures Apply(s, e, defaultTtl).store.hashes[key].deadline == s.store.hashes[key].deadline
  {
  }

  /** Only the EXPIRE of an `hSet` gives a key a deadline, its own time-to-live from now. */
  lemma DeadlineOrigin(s: State, e: Event, defaultTtl: int, key: string)
    requires key !in s.store.hashes || s.store.hashes[key].deadline.None?
    requires var after := Apply(s, e, defaultTtl); key in after.store.hashes && after.store.hashes[key].deadline.Some?
    ensures e.Step? && e.pid in s.procs && s.procs[e.pid].Writing? && s.procs[e.pid].stage == ToExpire
    ensures var w := s.procs[e.pid].w;
            && w.key == key
            && Apply(s, e, defaultTtl).store.hashes[key].deadline == Some(s.store.now + MS_PER_SECOND * w.ttl)
  {
  }

  lemma {:induction false} DeadlineKept(now: nat, events: seq<Event>, i: nat, j: nat, defaultTtl: int, key: string)
    requires i <= j <= |events|
    requires forall m {:trigger StateAt(now, events, m, defaultTtl)} :: i <= m <= j ==>
               key in StateAt(now, events, m, defaultTtl).store.hashes
    requires StateAt(now, events, i, defaultTtl).store.hashes[key].deadline.Some?
    ensures StateAt(now, events, j, defaultTtl).store.hashes[key].deadline ==
            StateAt(now, events, i, defaultTtl).store.hashes[key].deadline
    decreases j
  {
    if i < j {
      DeadlineKept(now, events, i, j - 1, defaultTtl, key);
      NextState(now, events, j - 1, defaultTtl);
      var last := StateAt(now, events, j - 1, defaultTtl);
      assert key in StateAt(now, events, j, defaultTtl).store.hashes;
      DeadlineFixed(last, events[j - 1], defaultTtl, key);
    }
  }

  /**
   * In every run: when event `i` gives a key its deadline, it is an EXPIRE with some time-to-live,
   * and for as long as the key lives on (to event `j`), however many writes it receives, less than
   * that time-to-live has passed. So no field outlives the TTL that set its key's deadline.
   */
  lemma FieldNeverOutlivesTtl(now: nat, events: seq<Event>, i: nat, j: nat, defaultTtl: int, key: string)
    requires i < j <= |events|
    requires var s := StateAt(now, events, i, defaultTtl).store; key !in s.hashes || s.hashes[key].deadline.None?
    requires forall m {:trigger StateAt(now, events, m, defaultTtl)} :: i < m <= j ==>
               key in StateAt(now, events, m, defaultTtl).store.hashes
    requires StateAt(now, events, i + 1, defaultTtl).store.hashes[key].deadline.Some?
    ensures var s, e := StateAt(now, events, i, defaultTtl), events[i];
            && e.Step? && e.pid in s.procs && s.procs[e.pid].Writing? && s.procs[e.pid].w.key == key
            && StateAt(now, events, j, defaultTtl).store.now < s.store.now + MS_PER_SECOND * s.procs[e.pid].w.ttl
  {
    NextState(now, events, i, defaultTtl);
    DeadlineOrigin(StateAt(now, events, i, defaultTtl), events[i], defaultTtl, key);
    DeadlineKept(now, events, i + 1, j, defaultTtl, key);
    StaysLive(now, events[..j], defaultTtl);
    assert key in StateAt(now, events, j, defaultTtl).store.hashes;
  }
}
