/**
 Counterfactual Safes: the table, the cached list of each address and the cached single Safes
 (src/datasources/accounts/counterfactual-safes/counterfactual-safes.datasource.ts,
 src/datasources/db/v1/cached-query-resolver.ts, src/datasources/accounts/accounts.datasource.ts).
 Whether a statement or a cache command goes through is a parameter.
 */
module CounterfactualSafes {
  import opened Prelude

  /** `data` stands for the other columns. */
  datatype Row = Row(accountId: nat, chainId: string, predictedAddress: string, data: int)

  datatype Account = Account(id: nat, address: string)

  type SafeKey = (string, string)

  /** The accounts by address, the Safes in table order, and the next serial id. */
  datatype Tables = Tables(accounts: map<string, nat>, safes: seq<Row>, nextId: nat)

  /** The tables, the cached lists by address, and the cached single Safes by chain and predicted address. */
  datatype State = State(tables: Tables, lists: map<string, seq<Row>>, singles: map<SafeKey, seq<Row>>)

  function KeyOf(r: Row): SafeKey {
    (r.chainId, r.predictedAddress)
  }

  /** The conditions of the queries and of what the deletions leave. */
  datatype Condition = InAccount(id: nat) | NotInAccount(id: nat) | HasKey(key: SafeKey) | NotTheSafe(id: nat, key: SafeKey)

  predicate Holds(c: Condition, r: Row) {
    match c
    case InAccount(id) => r.accountId == id
    case NotInAccount(id) => r.accountId != id
    case HasKey(key) => KeyOf(r) == key
    case NotTheSafe(id, key) => !(r.accountId == id && KeyOf(r) == key)
  }

  function Where(safes: seq<Row>, c: Condition): seq<Row> {
    if safes == [] then []
    else
      var last := safes[|safes| - 1];
      Where(safes[..|safes| - 1], c) + (if Holds(c, last) then [last] else [])
  }

  function Of(safes: seq<Row>, accountId: nat): seq<Row> {
    Where(safes, InAccount(accountId))
  }

  /** SELECT * FROM counterfactual_safes WHERE account_id = (SELECT id FROM accounts WHERE address = ...). */
  function Query(t: Tables, address: string): seq<Row> {
    if address in t.accounts then Of(t.safes, t.accounts[address]) else []
  }

  function First(rows: seq<Row>): Option<Row> {
    if rows == [] then None else Some(rows[0])
  }

  /** The same, for one chain and predicted address. */
  function QueryOne(t: Tables, address: string, key: SafeKey): seq<Row> {
    Where(Query(t, address), HasKey(key))
  }

  // ---- the operations, as functions of the state ----

  /** `allowed`: the rate limit admits the call; `sql`: the statement goes through; `cleared`: the UNLINK of the
      list is executed, `singleCleared` that of the single Safe, `singlesCleared` those executed of the
      deleted ones; `written`: the `hSet` returns normally. */
  datatype Event =
    | Create(account: Account, row: Row, allowed: bool, sql: bool, cleared: bool)
    | List(address: string, written: bool)
    | GetOne(address: string, key: SafeKey, written: bool)
    | DeleteOne(account: Account, key: SafeKey, sql: bool, cleared: bool, singleCleared: bool)
    | DeleteAll(account: Account, sql: bool, cleared: bool, singlesCleared: set<SafeKey>)
    | CreateAccount(address: string, sql: bool)
    | DeleteAccount(address: string, sql: bool, cleared: bool)
    | ExpireList(address: string)
    | ExpireSingle(key: SafeKey)

  /** The foreign key, the account is still there; and the unique constraint, it has no such Safe yet. */
  predicate Insertable(t: Tables, account: Account, key: SafeKey) {
    && account.address in t.accounts && t.accounts[account.address] == account.id
    && !HasSafe(t.safes, account.id, key)
  }

  predicate HasSafe(safes: seq<Row>, id: nat, key: SafeKey) {
    exists k :: 0 <= k < |safes| && safes[k].accountId == id && KeyOf(safes[k]) == key
  }

  function Inserted(s: State, e: Event): bool
    requires e.Create?
  {
    e.allowed && e.sql && Insertable(s.tables, e.account, KeyOf(e.row))
  }

  function TablesAfter(s: State, e: Event): Tables {
    var t := s.tables;
    match e
    case Create(account, row, _, _, _) => if Inserted(s, e) then t.(safes := t.safes + [row]) else t
    case DeleteOne(account, key, true, _, _) =>
      t.(safes := Where(t.safes, NotTheSafe(account.id, key)))
    case DeleteAll(account, true, _, _) => t.(safes := Where(t.safes, NotInAccount(account.id)))
    case CreateAccount(address, true) =>
      if address in t.accounts then t else t.(accounts := t.accounts[address := t.nextId], nextId := t.nextId + 1)
    case DeleteAccount(address, true, _) =>
      if address !in t.accounts then t
      else
        t.(accounts := t.accounts - {address}, safes := Where(t.safes, NotInAccount(t.accounts[address])))
    case _ => t
  }

  /** Read-through: a result is cached unless it is empty, the key is there already or nothing is written. */
  function ReadThrough<K>(cache: map<K, seq<Row>>, key: K, rows: seq<Row>, written: bool, ttl: int): map<K, seq<Row>> {
    if key in cache || rows == [] || !written || ttl <= 0 then cache else cache[key := rows]
  }

  function ListsAfter(s: State, e: Event, ttl: int): map<string, seq<Row>> {
    match e
    case Create(account, _, _, _, true) => if Inserted(s, e) then s.lists - {account.address} else s.lists
    case List(address, written) => ReadThrough(s.lists, address, Query(s.tables, address), written, ttl)
    case DeleteOne(account, _, _, true, _) => s.lists - {account.address}
    case DeleteAll(account, _, true, _) => s.lists - {account.address}
    case DeleteAccount(address, _, true) => s.lists - {address}
    case ExpireList(address) => s.lists - {address}
    case _ => s.lists
  }

  function Keys(rows: seq<Row>): set<SafeKey> {
    set r | r in rows :: KeyOf(r)
  }

  function SinglesAfter(s: State, e: Event, ttl: int): map<SafeKey, seq<Row>> {
    match e
    case GetOne(address, key, written) => ReadThrough(s.singles, key, QueryOne(s.tables, address, key), written, ttl)
    case DeleteOne(_, key, _, _, true) => s.singles - {key}
    case DeleteAll(account, true, _, singlesCleared) => s.singles - Keys(Of(s.tables.safes, account.id)) * singlesCleared
    case ExpireSingle(key) => s.singles - {key}
    case _ => s.singles
  }

  function Apply(s: State, e: Event, ttl: int): State {
    State(TablesAfter(s, e), ListsAfter(s, e, ttl), SinglesAfter(s, e, ttl))
  }

  // ---- invariants ----

  /** No account has a Safe twice. */
  ghost predicate Unique(safes: seq<Row>) {
    if safes == [] then true
    else
      var last := safes[|safes| - 1];
      Unique(safes[..|safes| - 1]) && !HasSafe(safes[..|safes| - 1], last.accountId, KeyOf(last))
  }

  /** Foreign keys, serial ids and the unique constraint. */
  ghost predicate ValidTables(t: Tables) {
    && Unique(t.safes)
    && (forall a :: a in t.accounts ==> t.accounts[a] < t.nextId)
    && (forall a, b :: a in t.accounts && b in t.accounts && t.accounts[a] == t.accounts[b] ==> a == b)
    && (forall r :: r in t.safes ==> Owned(t, r))
  }

  ghost predicate Owned(t: Tables, r: Row) {
    r.accountId < t.nextId && exists a :: a in t.accounts && t.accounts[a] == r.accountId
  }

  /** An account record as it was once handed out: its id was never given to another address. */
  ghost predicate Genuine(t: Tables, account: Account) {
    account.id < t.nextId && forall a :: a in t.accounts && t.accounts[a] == account.id ==> a == account.address
  }

  ghost predicate GenuineEvent(t: Tables, e: Event) {
    match e
    case Create(account, row, _, _, _) => Genuine(t, account) && row.accountId == account.id
    case DeleteOne(account, _, _, _, _) => Genuine(t, account)
    case DeleteAll(account, _, _, _) => Genuine(t, account)
    case _ => true
  }

  /** A cached list is what the query would return now. */
  ghost predicate ListsAgree(s: State) {
    forall a :: a in s.lists ==> s.lists[a] == Query(s.tables, a)
  }

  // ---- conditions ----

  lemma {:induction false} WhereMembers(safes: seq<Row>, c: Condition)
    ensures forall r :: r in Where(safes, c) <==> r in safes && Holds(c, r)
    decreases |safes|
  {
    if safes != [] {
      WhereMembers(safes[..|safes| - 1], c);
      assert safes == safes[..|safes| - 1] + [safes[|safes| - 1]];
    }
  }

  lemma WhereAppend(safes: seq<Row>, r: Row, c: Condition)
    ensures Where(safes + [r], c) == Where(safes, c) + (if Holds(c, r) then [r] else [])
  {
    assert (safes + [r])[..|safes|] == safes;
  }

  /** A deletion that spares every row of an account does not change that account's list. */
  lemma {:induction false} OfSpared(safes: seq<Row>, c: Condition, id: nat)
    requires forall r :: r in safes && Holds(InAccount(id), r) ==> Holds(c, r)
    ensures Of(Where(safes, c), id) == Of(safes, id)
    decreases |safes|
  {
    if safes != [] {
      var rest, last := safes[..|safes| - 1], safes[|safes| - 1];
      assert safes == rest + [last];
      OfSpared(rest, c, id);
      assert Holds(InAccount(id), last) ==> Holds(c, last);
      if Holds(c, last) {
        WhereAppend(Where(rest, c), last, InAccount(id));
      } else {
        assert Where(safes, c) == Where(rest, c);
      }
    }
  }

  lemma {:induction false} NothingFound(safes: seq<Row>, c: Condition)
    requires forall r :: r in safes ==> !Holds(c, r)
    ensures Where(safes, c) == []
    decreases |safes|
  {
    if safes != [] {
      NothingFound(safes[..|safes| - 1], c);
    }
  }

  lemma {:induction false} WhereUnique(safes: seq<Row>, c: Condition)
    requires Unique(safes)
    ensures Unique(Where(safes, c))
    decreases |safes|
  {
    if safes != [] {
      var rest, last := safes[..|safes| - 1], safes[|safes| - 1];
      WhereUnique(rest, c);
      WhereMembers(rest, c);
      var kept := Where(rest, c);
      if Holds(c, last) {
        assert forall k :: 0 <= k < |kept| ==> kept[k] in kept;
        NotAmong(rest, kept, last.accountId, KeyOf(last));
        UniqueAppend(kept, last);
        assert Where(safes, c) == kept + [last];
      } else {
        assert Where(safes, c) == kept + [] == kept;
      }
    }
  }

  lemma NotAmong(safes: seq<Row>, some: seq<Row>, id: nat, key: SafeKey)
    requires !HasSafe(safes, id, key) && forall k :: 0 <= k < |some| ==> some[k] in safes
    ensures !HasSafe(some, id, key)
  {
  }

  lemma UniqueAppend(safes: seq<Row>, r: Row)
    requires Unique(safes) && !HasSafe(safes, r.accountId, KeyOf(r))
    ensures Unique(safes + [r])
  {
    assert (safes + [r])[..|safes|] == safes;
  }

  /** Rows of one account and key are unique only if there is at most one. */
  lemma OneSafe(safes: seq<Row>, id: nat, key: SafeKey)
    requires forall r :: r in safes ==> r.accountId == id && KeyOf(r) == key
    ensures Unique(safes) ==> |safes| <= 1
  {
    if |safes| > 1 {
      var last := safes[|safes| - 1];
      assert safes[0] in safes && last in safes;
      assert safes[..|safes| - 1][0] == safes[0];
      assert HasSafe(safes[..|safes| - 1], last.accountId, KeyOf(last));
    }
  }

  // ---- one operation ----

  lemma TablesStayValid(s: State, e: Event)
    requires ValidTables(s.tables) && GenuineEvent(s.tables, e)
    ensures ValidTables(TablesAfter(s, e))
  {
    var t, after := s.tables, TablesAfter(s, e);
    match e {
      case Create(_, row, _, _, _) =>
        if Inserted(s, e) {
          UniqueAppend(t.safes, row);
        }
      case DeleteOne(account, key, _, _, _) =>
        WhereMembers(t.safes, NotTheSafe(account.id, key));
        WhereUnique(t.safes, NotTheSafe(account.id, key));
      case DeleteAll(account, _, _, _) =>
        WhereMembers(t.safes, NotInAccount(account.id));
        WhereUnique(t.safes, NotInAccount(account.id));
      case DeleteAccount(address, _, _) =>
        if address in t.accounts {
          WhereMembers(t.safes, NotInAccount(t.accounts[address]));
          WhereUnique(t.safes, NotInAccount(t.accounts[address]));
        }
      case _ =>
    }
    forall r | r in after.safes ensures Owned(after, r) {
      if r in t.safes {
        assert Owned(t, r);
        var a :| a in t.accounts && t.accounts[a] == r.accountId;
        assert a in after.accounts && after.accounts[a] == r.accountId;
      } else {
        assert e.Create? && r == e.row;
        assert after.accounts[e.account.address] == r.accountId;
      }
    }
  }

  /** The address whose list an operation may change. */
  function Touches(e: Event): Option<string> {
    match e
    case Create(account, _, _, _, _) => Some(account.address)
    case DeleteOne(account, _, _, _, _) => Some(account.address)
    case DeleteAll(account, _, _, _) => Some(account.address)
    case DeleteAccount(address, _, _) => Some(address)
    case _ => None
  }

  /** No operation changes the list of an address other than its own. */
  lemma OtherListsUnchanged(s: State, e: Event, address: string)
    requires ValidTables(s.tables) && GenuineEvent(s.tables, e)
    requires Touches(e) != Some(address)
    ensures Query(TablesAfter(s, e), address) == Query(s.tables, address)
  {
    var t := s.tables;
    if address in t.accounts {
      var id := t.accounts[address];
      match e {
        case Create(_, row, _, _, _) => WhereAppend(t.safes, row, InAccount(id));
        case DeleteOne(account, key, _, _, _) => OfSpared(t.safes, NotTheSafe(account.id, key), id);
        case DeleteAll(account, _, _, _) => OfSpared(t.safes, NotInAccount(account.id), id);
        case DeleteAccount(other, _, _) =>
          if other in t.accounts {
            OfSpared(t.safes, NotInAccount(t.accounts[other]), id);
          }
        case _ =>
      }
    } else if e.CreateAccount? && e.address == address {
      NothingFound(t.safes, InAccount(t.nextId));
    }
  }

  /** The list the operation had to clear was cleared, or its rows did not change. */
  predicate Clears(s: State, e: Event) {
    match e
    case Create(_, _, _, _, cleared) => cleared || !Inserted(s, e)
    case DeleteOne(_, _, sql, cleared, _) => cleared || !sql
    case DeleteAll(_, sql, cleared, _) => cleared || !sql
    case DeleteAccount(_, sql, cleared) => cleared || !sql
    case _ => true
  }

  /** An operation fails to clear what it has to exactly when it adds or deletes rows and the UNLINK of the
      list is not executed. */
  lemma ClearsIff(s: State, e: Event)
    ensures !Clears(s, e) <==>
              || (e.Create? && Inserted(s, e) && !e.cleared)
              || (e.DeleteOne? && e.sql && !e.cleared)
              || (e.DeleteAll? && e.sql && !e.cleared)
              || (e.DeleteAccount? && e.sql && !e.cleared)
  {
  }

  /** An expired list or single Safe is no longer cached, and nothing else changes. */
  lemma ExpiryForgets(s: State, address: string, key: SafeKey, ttl: int)
    ensures var after := Apply(s, ExpireList(address), ttl);
            && after.tables == s.tables && after.singles == s.singles && address !in after.lists
            && forall a :: a != address ==> (a in after.lists <==> a in s.lists) && (a in s.lists ==> after.lists[a] == s.lists[a])
    ensures var after := Apply(s, ExpireSingle(key), ttl);
            && after.tables == s.tables && after.lists == s.lists && key !in after.singles
            && forall k :: k != key ==> (k in after.singles <==> k in s.singles) && (k in s.singles ==> after.singles[k] == s.singles[k])
  {
  }

  lemma ListsAgreeStep(s: State, e: Event, ttl: int)
    requires ValidTables(s.tables) && GenuineEvent(s.tables, e) && ListsAgree(s) && Clears(s, e)
    ensures ListsAgree(Apply(s, e, ttl))
  {
    var after := Apply(s, e, ttl);
    forall a | a in after.lists ensures after.lists[a] == Query(after.tables, a) {
      if Touches(e) != Some(a) {
        OtherListsUnchanged(s, e, a);
      }
    }
  }

  function Run(events: seq<Event>, ttl: int): State {
    if events == [] then State(Tables(map[], [], 0), map[], map[])
    else Apply(Run(events[..|events| - 1], ttl), events[|events| - 1], ttl)
  }

  ghost predicate GenuineRun(events: seq<Event>, ttl: int) {
    forall i :: 0 <= i < |events| ==> GenuineEvent(Run(events[..i], ttl).tables, events[i])
  }

  ghost predicate ClearedRun(events: seq<Event>, ttl: int) {
    forall i :: 0 <= i < |events| ==> Clears(Run(events[..i], ttl), events[i])
  }

  /**
   * Over any sequential run of creations, lists, deletions, account changes and expiries, failing
   * statements and failing cache writes included, a cached list equals what the query returns now,
   * as long as the clearing of a changed list goes through.
   */
  lemma {:induction false} CachedListIsTheQuery(events: seq<Event>, ttl: int)
    requires GenuineRun(events, ttl) && ClearedRun(events, ttl)
    ensures ValidTables(Run(events, ttl).tables) && ListsAgree(Run(events, ttl))
    decreases |events|
  {
    if events != [] {
      var before, e := events[..|events| - 1], events[|events| - 1];
      assert forall i :: 0 <= i < |before| ==> before[..i] == events[..i] && before[i] == events[i];
      assert events[..|before|] == before;
      CachedListIsTheQuery(before, ttl);
      TablesStayValid(Run(before, ttl), e);
      ListsAgreeStep(Run(before, ttl), e, ttl);
    }
  }

  /** A creation whose clearing fails leaves a stale list exactly when a list was cached. */
  lemma FailedClearAfterCreate(s: State, e: Event, ttl: int)
    requires ValidTables(s.tables) && ListsAgree(s) && GenuineEvent(s.tables, e)
    requires e.Create? && Inserted(s, e) && !e.cleared
    ensures ListsAgree(Apply(s, e, ttl)) <==> e.account.address !in s.lists
  {
    var after := Apply(s, e, ttl);
    WhereAppend(s.tables.safes, e.row, InAccount(e.account.id));
    forall a | a in after.lists && a != e.account.address ensures after.lists[a] == Query(after.tables, a) {
      OtherListsUnchanged(s, e, a);
    }
    if e.account.address in s.lists {
      assert |Query(after.tables, e.account.address)| == |after.lists[e.account.address]| + 1;
    }
  }

  /** The statement of a deletion goes through and the UNLINK of the list is not executed. */
  predicate UnclearedDeletion(e: Event) {
    match e
    case DeleteOne(_, _, sql, cleared, _) => sql && !cleared
    case DeleteAll(_, sql, cleared, _) => sql && !cleared
    case DeleteAccount(_, sql, cleared) => sql && !cleared
    case _ => false
  }

  /** The deletion deletes this row of the list of its address. */
  predicate Deletes(e: Event, r: Row) {
    match e
    case DeleteOne(account, key, _, _, _) => r.accountId == account.id && KeyOf(r) == key
    case DeleteAll(account, _, _, _) => r.accountId == account.id
    case DeleteAccount(_, _, _) => true
    case _ => false
  }

  /** A deletion whose clearing fails leaves a stale list exactly when a cached list has a row it deletes. */
  lemma FailedClearAfterDelete(s: State, e: Event, ttl: int)
    requires ValidTables(s.tables) && ListsAgree(s) && GenuineEvent(s.tables, e) && UnclearedDeletion(e)
    ensures var address := Touches(e).value;
            ListsAgree(Apply(s, e, ttl)) <==> address !in s.lists || forall r :: r in s.lists[address] ==> !Deletes(e, r)
  {
    var t, after, address := s.tables, Apply(s, e, ttl), Touches(e).value;
    assert after.lists == s.lists;
    forall a | a in after.lists && a != address ensures after.lists[a] == Query(after.tables, a) {
      OtherListsUnchanged(s, e, a);
    }
    if address in t.accounts {
      var id := t.accounts[address];
      var c := match e
        case DeleteOne(account, key, _, _, _) => NotTheSafe(account.id, key)
        case DeleteAll(account, _, _, _) => NotInAccount(account.id)
        case _ => NotInAccount(id);
      assert after.tables.safes == Where(t.safes, c);
      assert forall r: Row :: r.accountId == id ==> (Deletes(e, r) <==> !Holds(c, r));
      UnclearedList(t.safes, c, id);
      WhereMembers(t.safes, InAccount(id));
      if e.DeleteAccount? {
        NothingLeft(s, e, ttl, id);
      }
    }
  }

  /** The list of an account is what it was after a deletion exactly when the deletion spares all its rows. */
  lemma UnclearedList(safes: seq<Row>, c: Condition, id: nat)
    ensures Of(Where(safes, c), id) == Of(safes, id) <==> forall r :: r in Of(safes, id) ==> Holds(c, r)
  {
    WhereMembers(safes, InAccount(id));
    WhereMembers(safes, c);
    WhereMembers(Where(safes, c), InAccount(id));
    if forall r :: r in Of(safes, id) ==> Holds(c, r) {
      OfSpared(safes, c, id);
    }
  }

  /** Once its account is gone, an address has no list. */
  lemma NothingLeft(s: State, e: Event, ttl: int, id: nat)
    requires e.DeleteAccount? && e.sql && e.address in s.tables.accounts && s.tables.accounts[e.address] == id
    ensures Query(Apply(s, e, ttl).tables, e.address) == [] == Of(Where(s.tables.safes, NotInAccount(id)), id)
  {
    WhereMembers(s.tables.safes, NotInAccount(id));
    NothingFound(Where(s.tables.safes, NotInAccount(id)), InAccount(id));
  }

  /**
   * A read that overlaps a creation: it runs its query, the creation inserts and clears, and then
   * the read writes what it found. The list it leaves is stale exactly when it found any rows.
   */
  lemma OverlappingReadIsStale(s: State, e: Event, ttl: int)
    requires ValidTables(s.tables) && ListsAgree(s) && GenuineEvent(s.tables, e) && ttl > 0
    requires e.Create? && Inserted(s, e) && e.cleared
    ensures var address := e.account.address;
            var found := Query(s.tables, address);
            var created := Apply(s, e, ttl);
            ListsAgree(created.(lists := ReadThrough(created.lists, address, found, true, ttl))) <==> found == []
  {
    var address := e.account.address;
    var created := Apply(s, e, ttl);
    ListsAgreeStep(s, e, ttl);
    WhereAppend(s.tables.safes, e.row, InAccount(e.account.id));
    assert |Query(created.tables, address)| == |Query(s.tables, address)| + 1;
    assert address !in created.lists;
  }

  // ---- single Safes ----

  /** Every cached single Safe is one row of the table, under its key. */
  ghost predicate SinglesLive(s: State) {
    forall key :: key in s.singles ==>
      |s.singles[key]| == 1 && s.singles[key][0] in s.tables.safes && KeyOf(s.singles[key][0]) == key
  }

  lemma QueryOneRow(t: Tables, address: string, key: SafeKey)
    requires ValidTables(t)
    ensures |QueryOne(t, address, key)| <= 1
    ensures forall r :: r in QueryOne(t, address, key) <==>
              r in t.safes && KeyOf(r) == key && address in t.accounts && r.accountId == t.accounts[address]
  {
    WhereMembers(Query(t, address), HasKey(key));
    if address in t.accounts {
      var id := t.accounts[address];
      WhereMembers(t.safes, InAccount(id));
      WhereUnique(t.safes, InAccount(id));
      WhereUnique(Query(t, address), HasKey(key));
      OneSafe(QueryOne(t, address, key), id, key);
    }
  }

  /** The single Safes the operation had to clear were cleared, or its rows did not change. */
  predicate ClearsSingles(s: State, e: Event) {
    match e
    case DeleteOne(_, _, sql, _, singleCleared) => singleCleared || !sql
    case DeleteAll(account, sql, _, singlesCleared) => !sql || Keys(Of(s.tables.safes, account.id)) <= singlesCleared
    case _ => true
  }

  /** It fails to clear them exactly when it deletes a row and the UNLINK of the row's key is not executed. */
  lemma ClearsSinglesIff(s: State, e: Event)
    ensures !ClearsSingles(s, e) <==>
              || (e.DeleteOne? && e.sql && !e.singleCleared)
              || (e.DeleteAll? && e.sql && exists r :: r in s.tables.safes && r.accountId == e.account.id && KeyOf(r) !in e.singlesCleared)
  {
    if e.DeleteAll? {
      WhereMembers(s.tables.safes, InAccount(e.account.id));
      var deleted := Of(s.tables.safes, e.account.id);
      assert forall r :: r in deleted ==> KeyOf(r) in Keys(deleted);
    }
  }

  /** Each operation but the deletion of an account keeps cached single Safes backed by the table. */
  lemma SinglesLiveStep(s: State, e: Event, ttl: int)
    requires ValidTables(s.tables) && SinglesLive(s) && ClearsSingles(s, e) && !e.DeleteAccount?
    ensures SinglesLive(Apply(s, e, ttl))
  {
    var t, after := s.tables, Apply(s, e, ttl);
    match e {
      case GetOne(address, key, _) => QueryOneRow(t, address, key);
      case DeleteOne(account, key, _, _, _) => WhereMembers(t.safes, NotTheSafe(account.id, key));
      case DeleteAll(account, _, _, _) =>
        WhereMembers(t.safes, NotInAccount(account.id));
        WhereMembers(t.safes, InAccount(account.id));
        assert forall r :: r in t.safes && r.accountId == account.id ==> KeyOf(r) in Keys(Of(t.safes, account.id));
      case _ =>
    }
    forall key | key in after.singles
      ensures |after.singles[key]| == 1 && after.singles[key][0] in after.tables.safes && KeyOf(after.singles[key][0]) == key
    {
      if key in s.singles && after.singles[key] == s.singles[key] {
        assert s.singles[key][0] in t.safes;
      }
    }
  }

  /** Deleting an account clears no single Safe: they stay backed exactly when none of them is its own. */
  lemma AccountDeletionAndSingles(s: State, e: Event, ttl: int)
    requires SinglesLive(s) && e.DeleteAccount? && e.sql && e.address in s.tables.accounts
    ensures SinglesLive(Apply(s, e, ttl)) <==>
            forall key :: key in s.singles ==> s.singles[key][0].accountId != s.tables.accounts[e.address]
  {
    WhereMembers(s.tables.safes, NotInAccount(s.tables.accounts[e.address]));
    var after := Apply(s, e, ttl);
    if SinglesLive(after) {
      forall key | key in s.singles ensures s.singles[key][0].accountId != s.tables.accounts[e.address] {
        assert key in after.singles && after.singles[key][0] in after.tables.safes;
      }
    }
  }

  /** The entry of a single Safe does not say whose it is: a hit answers what the query would exactly when
      the cached row is of the account asked for. */
  lemma HitIsTheQueryIff(s: State, address: string, key: SafeKey)
    requires ValidTables(s.tables) && SinglesLive(s) && key in s.singles
    ensures s.singles[key] == QueryOne(s.tables, address, key) <==>
            address in s.tables.accounts && s.singles[key][0].accountId == s.tables.accounts[address]
  {
    QueryOneRow(s.tables, address, key);
    var row, found := s.singles[key][0], QueryOne(s.tables, address, key);
    if row in found {
      assert found == [row];
    }
  }

  /** Any two accounts with a Safe of the same key: the second is answered the row of the first. */
  lemma AnotherAccountsRow(a: string, b: string, key: SafeKey, d1: int, d2: int, ttl: int) returns (events: seq<Event>)
    requires a != b && ttl > 0
    ensures GenuineRun(events, ttl)
    ensures var s := Run(events, ttl);
            && key in s.singles && s.singles[key] == QueryOne(s.tables, a, key) == [Row(0, key.0, key.1, d1)]
            && QueryOne(s.tables, b, key) == [Row(1, key.0, key.1, d2)]
  {
    var r1, r2 := Row(0, key.0, key.1, d1), Row(1, key.0, key.1, d2);
    var s1, e1 := TwoAccounts(a, b, ttl);
    var s2, e2 := AddSafe(s1, e1, Account(0, a), r1, ttl);
    assert !HasSafe([r1], 1, key);
    var s3, e3 := AddSafe(s2, e2, Account(1, b), r2, ttl);
    assert s3.tables.safes == [r1, r2] by { assert [r1] + [r2] == [r1, r2]; }
    TwoSafes(r1, r2, key);
    events := ReadOne(s3, e3, a, key, ttl);
  }

  lemma ReadOne(s: State, events: seq<Event>, address: string, key: SafeKey, ttl: int) returns (more: seq<Event>)
    requires s == Run(events, ttl) && GenuineRun(events, ttl)
    requires key !in s.singles && QueryOne(s.tables, address, key) != [] && ttl > 0
    ensures GenuineRun(more, ttl) && Run(more, ttl).tables == s.tables
    ensures key in Run(more, ttl).singles && Run(more, ttl).singles[key] == QueryOne(s.tables, address, key)
  {
    var t;
    t, more := Extend(s, events, GetOne(address, key, true), ttl);
  }

  lemma AddSafe(s: State, events: seq<Event>, account: Account, row: Row, ttl: int) returns (t: State, more: seq<Event>)
    requires s == Run(events, ttl) && GenuineRun(events, ttl) && Genuine(s.tables, account) && row.accountId == account.id
    requires Insertable(s.tables, account, KeyOf(row))
    ensures t == Run(more, ttl) && GenuineRun(more, ttl)
    ensures t.tables == s.tables.(safes := s.tables.safes + [row]) && t.singles == s.singles
  {
    t, more := Extend(s, events, Create(account, row, true, true, true), ttl);
  }

  lemma AddAccount(s: State, events: seq<Event>, address: string, ttl: int) returns (t: State, more: seq<Event>)
    requires s == Run(events, ttl) && GenuineRun(events, ttl) && address !in s.tables.accounts
    ensures t == Run(more, ttl) && GenuineRun(more, ttl)
    ensures t.tables == s.tables.(accounts := s.tables.accounts[address := s.tables.nextId], nextId := s.tables.nextId + 1)
    ensures t.singles == s.singles
  {
    t, more := Extend(s, events, CreateAccount(address, true), ttl);
  }

  lemma TwoAccounts(a: string, b: string, ttl: int) returns (s: State, events: seq<Event>)
    requires a != b
    ensures s == Run(events, ttl) && GenuineRun(events, ttl)
    ensures s.tables == Tables(map[a := 0, b := 1], [], 2) && s.singles == map[]
  {
    s, events := AddAccount(Run([], ttl), [], a, ttl);
    s, events := AddAccount(s, events, b, ttl);
  }

  lemma TwoSafes(r1: Row, r2: Row, key: SafeKey)
    requires KeyOf(r1) == KeyOf(r2) == key && r1.accountId == 0 && r2.accountId == 1
    ensures Where(Of([r1, r2], 0), HasKey(key)) == [r1] && Where(Of([r1, r2], 1), HasKey(key)) == [r2]
  {
    assert [] + [r1] == [r1] && [] + [r2] == [r2] && [r1] + [r2] == [r1, r2];
    WhereAppend([], r1, InAccount(0));
    WhereAppend([], r1, InAccount(1));
    WhereAppend([r1], r2, InAccount(0));
    WhereAppend([r1], r2, InAccount(1));
    WhereAppend([], r1, HasKey(key));
    WhereAppend([], r2, HasKey(key));
  }

  lemma Extend(s: State, events: seq<Event>, e: Event, ttl: int) returns (t: State, more: seq<Event>)
    requires s == Run(events, ttl) && GenuineRun(events, ttl) && GenuineEvent(s.tables, e)
    ensures more == events + [e] && t == Apply(s, e, ttl) && t == Run(more, ttl) && GenuineRun(more, ttl)
  {
    t, more := Apply(s, e, ttl), events + [e];
    assert more[..|events|] == events;
    forall i | 0 <= i < |more| ensures GenuineEvent(Run(more[..i], ttl).tables, more[i]) {
      if i < |events| {
        assert more[..i] == events[..i] && more[i] == events[i];
      }
    }
  }

  // ---- account records that outlive their account ----

  /** The record of an account that has been deleted, even if its address has an account again. */
  predicate Retired(t: Tables, account: Account) {
    account.id < t.nextId && (account.address in t.accounts ==> t.accounts[account.address] != account.id)
  }

  /** The deletion of an account retires its record ... */
  lemma DeletionRetires(s: State, account: Account, cleared: bool, ttl: int)
    requires ValidTables(s.tables) && account.address in s.tables.accounts && s.tables.accounts[account.address] == account.id
    ensures Retired(Apply(s, DeleteAccount(account.address, true, cleared), ttl).tables, account)
  {
  }

  /** ... for good: whatever happens afterwards, no creation with the old record adds a Safe. */
  lemma {:induction false} RetiredForGood(before: seq<Event>, after: seq<Event>, account: Account, ttl: int)
    requires Retired(Run(before, ttl).tables, account)
    ensures Retired(Run(before + after, ttl).tables, account)
    ensures forall row, allowed, sql, cleared ::
              var s := Run(before + after, ttl);
              Apply(s, Create(account, row, allowed, sql, cleared), ttl) == s
    decreases |after|
  {
    if after == [] {
      assert before + after == before;
    } else {
      assert (before + after)[..|before + after| - 1] == before + after[..|after| - 1];
      RetiredForGood(before, after[..|after| - 1], account, ttl);
    }
  }

  // ---- the datasource ----

  class CounterfactualSafesDatasource {
    var tables: Tables
    var lists: map<string, seq<Row>>
    var singles: map<SafeKey, seq<Row>>
    const defaultExpirationTimeInSeconds: int

    constructor (ttl: int)
      ensures View() == Run([], ttl) && defaultExpirationTimeInSeconds == ttl
    {
      defaultExpirationTimeInSeconds := ttl;
      tables, lists, singles := Tables(map[], [], 0), map[], map[];
    }

    function View(): State
      reads this
    {
      State(tables, lists, singles)
    }

    method CreateCounterfactualSafe(account: Account, row: Row, allowed: bool, sql: bool, cleared: bool) returns (ok: bool)
      requires row.accountId == account.id
      modifies this
      ensures View() == Apply(old(View()), Create(account, row, allowed, sql, cleared), defaultExpirationTimeInSeconds)
      ensures ok <==> allowed && sql && cleared && Insertable(old(tables), account, KeyOf(row))
      ensures ok ==> Query(tables, account.address) == Query(old(tables), account.address) + [row]
    {
      if !allowed || !(sql && Insertable(tables, account, KeyOf(row))) {
        return false;
      }
      WhereAppend(tables.safes, row, InAccount(account.id));
      tables := tables.(safes := tables.safes + [row]);
      if cleared {
        lists := lists - {account.address};
      }
      ok := cleared;
    }

    /** `CachedQueryResolver.get` of the list. */
    method GetCounterfactualSafesForAddress(address: string, written: bool) returns (result: Option<seq<Row>>)
      requires ListsAgree(View())
      modifies this`lists
      ensures View() == Apply(old(View()), List(address, written), defaultExpirationTimeInSeconds)
      ensures result.Some? ==> result.value == Query(tables, address)
      ensures result.None? ==> !written && address !in lists
      ensures address in lists <==>
                address in old(lists) || (Query(tables, address) != [] && defaultExpirationTimeInSeconds > 0 && written)
    {
      if address in lists {
        return Some(lists[address]);
      }
      var rows := Query(tables, address);
      if |rows| > 0 && defaultExpirationTimeInSeconds > 0 {
        if !written {
          return None;
        }
        lists := lists[address := rows];
      }
      result := Some(rows);
    }

    /** A miss answers what the query finds now; a hit does so exactly when the cached row is of the
        account asked for, and answers a row under that key in any case. */
    method GetCounterfactualSafe(address: string, key: SafeKey, written: bool) returns (result: Option<Row>, ok: bool)
      requires ValidTables(tables) && SinglesLive(View())
      modifies this`singles
      ensures View() == Apply(old(View()), GetOne(address, key, written), defaultExpirationTimeInSeconds)
      ensures !ok ==> key !in old(singles) && !written
      ensures result.Some? ==> result.value in tables.safes && KeyOf(result.value) == key
      ensures ok && key !in old(singles) ==> result == First(QueryOne(tables, address, key))
      ensures ok && key !in old(singles) ==>
                forall r :: result == Some(r) <==>
                  r in tables.safes && KeyOf(r) == key && address in tables.accounts && r.accountId == tables.accounts[address]
      ensures key in singles <==>
                key in old(singles) || (QueryOne(tables, address, key) != [] && defaultExpirationTimeInSeconds > 0 && written)
      ensures ok && key in old(singles) ==>
                (result == First(QueryOne(tables, address, key)) <==>
                   address in tables.accounts && old(singles)[key][0].accountId == tables.accounts[address])
    {
      QueryOneRow(tables, address, key);
      var rows;
      if key in singles {
        HitIsTheQueryIff(View(), address, key);
        rows := singles[key];
      } else {
        rows := QueryOne(tables, address, key);
        if |rows| > 0 && defaultExpirationTimeInSeconds > 0 {
          if !written {
            return None, false;
          }
          singles := singles[key := rows];
        }
      }
      result, ok := First(rows), true;
    }

    /** The keys are cleared whether or not the DELETE went through, each by an UNLINK of its own. */
    method DeleteCounterfactualSafe(account: Account, key: SafeKey, sql: bool, cleared: bool, singleCleared: bool)
      modifies this
      ensures View() == Apply(old(View()), DeleteOne(account, key, sql, cleared, singleCleared), defaultExpirationTimeInSeconds)
      ensures cleared ==> account.address !in lists
      ensures singleCleared ==> key !in singles
      ensures sql ==> !HasSafe(tables.safes, account.id, key)
    {
      if sql {
        WhereMembers(tables.safes, NotTheSafe(account.id, key));
        tables := tables.(safes := Where(tables.safes, NotTheSafe(account.id, key)));
        assert forall k :: 0 <= k < |tables.safes| ==> tables.safes[k] in tables.safes;
      }
      if singleCleared {
        singles := singles - {key};
      }
      if cleared {
        lists := lists - {account.address};
      }
    }

    /** The list is cleared first; `singlesCleared` are the keys of deleted Safes whose UNLINK is executed
        after that, none when the clearing of the list is not answered. */
    method DeleteCounterfactualSafesForAccount(account: Account, sql: bool, cleared: bool, singlesCleared: set<SafeKey>)
      modifies this
      ensures View() == Apply(old(View()), DeleteAll(account, sql, cleared, singlesCleared), defaultExpirationTimeInSeconds)
      ensures cleared ==> account.address !in lists
      ensures sql ==> forall r :: r in tables.safes <==> r in old(tables).safes && r.accountId != account.id
      ensures sql ==> forall r :: r in old(tables).safes && r.accountId == account.id && KeyOf(r) in singlesCleared ==> KeyOf(r) !in singles
    {
      var deleted: seq<Row> := [];
      WhereMembers(tables.safes, NotInAccount(account.id));
      WhereMembers(tables.safes, InAccount(account.id));
      if sql {
        deleted := Of(tables.safes, account.id);
        tables := tables.(safes := Where(tables.safes, NotInAccount(account.id)));
      }
      if cleared {
        lists := lists - {account.address};
      }
      singles := singles - Keys(deleted) * singlesCleared;
      assert !sql ==> Keys(deleted) == {};
    }

    /** AccountsDatasource.deleteAccount, as far as Safes are concerned: the foreign key cascades. */
    method DeleteAccount(address: string, sql: bool, cleared: bool)
      modifies this
      ensures View() == Apply(old(View()), Event.DeleteAccount(address, sql, cleared), defaultExpirationTimeInSeconds)
      ensures sql ==> address !in tables.accounts && Query(tables, address) == []
      ensures forall other :: other != address ==>
                (other in tables.accounts <==> other in old(tables).accounts)
                && (other in tables.accounts ==> tables.accounts[other] == old(tables).accounts[other])
      ensures sql && address in old(tables).accounts ==>
                forall r :: r in tables.safes <==> r in old(tables).safes && r.accountId != old(tables).accounts[address]
      ensures !sql ==> tables == old(tables)
      ensures cleared ==> address !in lists
      ensures singles == old(singles)
    {
      if address in tables.accounts {
        WhereMembers(tables.safes, NotInAccount(tables.accounts[address]));
      }
      if sql && address in tables.accounts {
        tables := tables.(accounts := tables.accounts - {address},
                          safes := Where(tables.safes, NotInAccount(tables.accounts[address])));
      }
      if cleared {
        lists := lists - {address};
      }
    }
  }
}
