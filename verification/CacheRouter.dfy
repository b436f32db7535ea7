/** The names of cache entries (src/datasources/cache/cache.router.ts): different things never share a name. */
module CacheRouter {
  import opened Prelude
  import opened Decimal
  import P = CacheProtocol
  import R = RedisCacheService

  /** The kinds of entries named by a chain and an address or hash. */
  datatype Family =
    | SafeBalances | ZerionBalances | ZerionCollectibles | Safe | SafeExists | Contract | SafeCollectibles
    | Delegates | Transfers | ModuleTransactions | IncomingTransfers | MultisigTransactions | MultisigTransaction
    | CreationTransaction | AllTransactions

  function FamilyText(f: Family): string {
    match f
    case SafeBalances => "safe_balances"
    case ZerionBalances => "zerion_balances"
    case ZerionCollectibles => "zerion_collectibles"
    case Safe => "safe"
    case SafeExists => "safe_exists"
    case Contract => "contract"
    case SafeCollectibles => "safe_collectibles"
    case Delegates => "delegates"
    case Transfers => "transfers"
    case ModuleTransactions => "module_transactions"
    case IncomingTransfers => "incoming_transfers"
    case MultisigTransactions => "multisig_transactions"
    case MultisigTransaction => "multisig_transaction"
    case CreationTransaction => "creation_transaction"
    case AllTransactions => "all_transactions"
  }

  /** What a template literal makes of a value that may be absent. */
  function OrUndefined(text: Option<string>): string {
    match text
    case None => "undefined"
    case Some(t) => t
  }

  function NumberOrUndefined(n: Option<nat>): string {
    match n
    case None => "undefined"
    case Some(k) => ToText(k)
  }

  /** The key of an entry; only the delegates key may lack an address. */
  function Key(chainId: string, family: Family, address: Option<string>): string {
    chainId + "_" + FamilyText(family) + "_" + OrUndefined(address)
  }

  predicate IsChainId(s: string) {
    s != [] && forall i :: 0 <= i < |s| ==> '0' <= s[i] <= '9'
  }

  predicate IsHexChar(c: char) {
    '0' <= c <= '9' || 'a' <= c <= 'f' || 'A' <= c <= 'F'
  }

  /** 0x and hexadecimal digits. */
  predicate IsHex(s: string) {
    |s| >= 2 && s[0] == '0' && s[1] == 'x' && forall i :: 2 <= i < |s| ==> IsHexChar(s[i])
  }

  /** Hexadecimal digits, in any case, after 0x. */
  lemma IsHexIff(s: string)
    ensures IsHex(s) <==> |s| >= 2 && s[..2] == "0x" && forall i :: 2 <= i < |s| ==> s[i] in "0123456789abcdefABCDEF"
  {
    forall i | 0 <= i < |s| ensures IsHexChar(s[i]) <==> s[i] in "0123456789abcdefABCDEF" {
      HexChars(s[i]);
    }
    if |s| >= 2 {
      assert s[..2] == [s[0], s[1]];
    }
  }

  lemma HexChars(c: char)
    ensures IsHexChar(c) <==> c in "0123456789abcdefABCDEF"
  {
    var digits := "0123456789abcdefABCDEF";
    if '0' <= c <= '9' {
      assert digits[c as int - '0' as int] == c;
    } else if 'a' <= c <= 'f' {
      assert digits[10 + c as int - 'a' as int] == c;
    } else if 'A' <= c <= 'F' {
      assert digits[16 + c as int - 'A' as int] == c;
    }
  }

  predicate IsHexOrAbsent(a: Option<string>) {
    a.None? || IsHex(a.value)
  }

  predicate Plain(s: string) {
    forall i :: 0 <= i < |s| ==> s[i] != '_'
  }

  // ---- splitting at the separator ----

  lemma SplitFirst(a: string, rest: string, b: string, rest': string)
    requires Plain(a) && Plain(b) && a + "_" + rest == b + "_" + rest'
    ensures a == b && rest == rest'
  {
    var s := a + "_" + rest;
    assert s[|a|] == '_' && s[|b|] == '_';
    assert forall i :: 0 <= i < |a| ==> s[i] == a[i];
    assert forall i :: 0 <= i < |b| ==> s[i] == b[i];
    assert |a| == |b|;
    assert a == s[..|a|] && b == s[..|b|];
    assert rest == s[|a| + 1..] && rest' == s[|b| + 1..];
  }

  lemma SplitLast(rest: string, a: string, rest': string, b: string)
    requires Plain(a) && Plain(b) && rest + "_" + a == rest' + "_" + b
    ensures a == b && rest == rest'
  {
    var s := rest + "_" + a;
    assert s[|rest|] == '_' && s[|rest'|] == '_';
    forall i | |rest| < i < |s| ensures s[i] != '_' {
      assert s[i] == a[i - |rest| - 1];
    }
    forall i | |rest'| < i < |s| ensures s[i] != '_' {
      assert s[i] == b[i - |rest'| - 1];
    }
    assert |rest| == |rest'|;
    assert rest == s[..|rest|] && rest' == s[..|rest'|];
    assert a == s[|rest| + 1..] && b == s[|rest'| + 1..];
  }

  lemma AddressTextInjective(a: Option<string>, b: Option<string>)
    requires IsHexOrAbsent(a) && IsHexOrAbsent(b)
    ensures Plain(OrUndefined(a))
    ensures OrUndefined(a) == OrUndefined(b) ==> a == b
  {
    assert "undefined"[0] == 'u';
  }

  lemma NumberTextInjective(a: Option<nat>, b: Option<nat>)
    ensures Plain(NumberOrUndefined(a))
    ensures NumberOrUndefined(a) == NumberOrUndefined(b) ==> a == b
  {
    assert "undefined"[0] == 'u';
    if a.Some? && b.Some? && ToText(a.value) == ToText(b.value) {
      ToTextInjective(a.value, b.value);
    }
  }

  /** The families' texts differ by length or by their first character. */
  lemma FamilyTextInjective(f: Family, g: Family)
    requires FamilyText(f) == FamilyText(g)
    ensures f == g
  {
    assert |FamilyText(f)| == |FamilyText(g)| && FamilyText(f)[0] == FamilyText(g)[0];
  }

  // ---- keys ----

  /** Two keys are equal only if family, chain and address all are. */
  lemma KeyInjective(c1: string, f1: Family, a1: Option<string>, c2: string, f2: Family, a2: Option<string>)
    requires IsChainId(c1) && IsChainId(c2) && IsHexOrAbsent(a1) && IsHexOrAbsent(a2)
    ensures Key(c1, f1, a1) == Key(c2, f2, a2) <==> c1 == c2 && f1 == f2 && a1 == a2
  {
    if Key(c1, f1, a1) == Key(c2, f2, a2) {
      AddressTextInjective(a1, a2);
      AddressTextInjective(a2, a1);
      SplitLast(c1 + "_" + FamilyText(f1), OrUndefined(a1), c2 + "_" + FamilyText(f2), OrUndefined(a2));
      SplitFirst(c1, FamilyText(f1), c2, FamilyText(f2));
      FamilyTextInjective(f1, f2);
    }
  }

  /** No entry is ever named like the invalidation time of any entry, with or without a key prefix;
      so the protocol may keep both in one store. */
  lemma KeyIsNoStampKey(prefix: string, chainId: string, family: Family, address: Option<string>, any: string)
    requires IsChainId(chainId)
    ensures !P.IsStampKey(Key(chainId, family, address))
    ensures R.PrefixKey(prefix, Key(chainId, family, address)) != R.PrefixKey(prefix, P.StampKey(any))
  {
    var key := Key(chainId, family, address);
    assert key[0] == chainId[0] != 'i';
    assert P.STAMP_PREFIX[0] == 'i' && P.StampKey(any)[0] == 'i';
    R.PrefixKeyInjective(prefix, key, P.StampKey(any));
  }

  // ---- fields ----

  datatype DelegatesQuery = DelegatesQuery(
    delegate: Option<string>, delegator: Option<string>, labelText: Option<string>, limit: Option<nat>, offset: Option<nat>)

  function DelegatesField(q: DelegatesQuery): string {
    OrUndefined(q.delegate) + "_" + OrUndefined(q.delegator) + "_" + OrUndefined(q.labelText) + "_"
    + NumberOrUndefined(q.limit) + "_" + NumberOrUndefined(q.offset)
  }

  /**
   * Two delegate queries share a field exactly when they agree on everything, the label counting as
   * its text ("undefined" when absent); the label may contain the separator any number of times.
   */
  lemma DelegatesFieldInjective(p: DelegatesQuery, q: DelegatesQuery)
    requires IsHexOrAbsent(p.delegate) && IsHexOrAbsent(p.delegator)
    requires IsHexOrAbsent(q.delegate) && IsHexOrAbsent(q.delegator)
    ensures DelegatesField(p) == DelegatesField(q) <==>
            && p.delegate == q.delegate && p.delegator == q.delegator
            && OrUndefined(p.labelText) == OrUndefined(q.labelText)
            && p.limit == q.limit && p.offset == q.offset
  {
    if DelegatesField(p) == DelegatesField(q) {
      NumberTextInjective(p.limit, q.limit);
      NumberTextInjective(q.limit, p.limit);
      NumberTextInjective(p.offset, q.offset);
      NumberTextInjective(q.offset, p.offset);
      AddressTextInjective(p.delegate, q.delegate);
      AddressTextInjective(q.delegate, p.delegate);
      AddressTextInjective(p.delegator, q.delegator);
      AddressTextInjective(q.delegator, p.delegator);
      var pHead := OrUndefined(p.delegate) + "_" + OrUndefined(p.delegator) + "_" + OrUndefined(p.labelText);
      var qHead := OrUndefined(q.delegate) + "_" + OrUndefined(q.delegator) + "_" + OrUndefined(q.labelText);
      SplitLast(pHead + "_" + NumberOrUndefined(p.limit), NumberOrUndefined(p.offset),
                qHead + "_" + NumberOrUndefined(q.limit), NumberOrUndefined(q.offset));
      SplitLast(pHead, NumberOrUndefined(p.limit), qHead, NumberOrUndefined(q.limit));
      SplitHead(p.delegate, p.delegator, OrUndefined(p.labelText), q.delegate, q.delegator, OrUndefined(q.labelText));
    }
  }

  lemma SplitHead(a: Option<string>, b: Option<string>, c: string, a': Option<string>, b': Option<string>, c': string)
    requires Plain(OrUndefined(a)) && Plain(OrUndefined(a')) && Plain(OrUndefined(b)) && Plain(OrUndefined(b'))
    requires OrUndefined(a) + "_" + OrUndefined(b) + "_" + c == OrUndefined(a') + "_" + OrUndefined(b') + "_" + c'
    ensures OrUndefined(a) == OrUndefined(a') && OrUndefined(b) == OrUndefined(b') && c == c'
  {
    assert OrUndefined(a) + "_" + OrUndefined(b) + "_" + c == OrUndefined(a) + "_" + (OrUndefined(b) + "_" + c);
    assert OrUndefined(a') + "_" + OrUndefined(b') + "_" + c' == OrUndefined(a') + "_" + (OrUndefined(b') + "_" + c');
    SplitFirst(OrUndefined(a), OrUndefined(b) + "_" + c, OrUndefined(a'), OrUndefined(b') + "_" + c');
    SplitFirst(OrUndefined(b), c, OrUndefined(b'), c');
  }

  /** The texts of a field with several parts, joined by the separator. */
  function Join(parts: seq<string>): string {
    if parts == [] then ""
    else if |parts| == 1 then parts[0]
    else parts[0] + "_" + Join(parts[1..])
  }

  /** Fields of transaction queries: as many parts, none with the separator, are told apart. */
  lemma {:induction false} JoinInjective(p: seq<string>, q: seq<string>)
    requires |p| == |q| && Join(p) == Join(q)
    requires forall i :: 0 <= i < |p| ==> Plain(p[i]) && Plain(q[i])
    ensures p == q
    decreases |p|
  {
    if |p| > 1 {
      SplitFirst(p[0], Join(p[1..]), q[0], Join(q[1..]));
      JoinInjective(p[1..], q[1..]);
      assert p == [p[0]] + p[1..] && q == [q[0]] + q[1..];
    }
  }

  function BoolOrUndefined(b: Option<bool>): (s: string)
    ensures Plain(s)
  {
    match b
    case None => "undefined"
    case Some(true) => "true"
    case Some(false) => "false"
  }

  lemma BoolTextInjective(a: Option<bool>, b: Option<bool>)
    requires BoolOrUndefined(a) == BoolOrUndefined(b)
    ensures a == b
  {
    assert "undefined"[0] == 'u' && "true"[0] == 't' && "false"[0] == 'f';
  }

  datatype AllTransactionsQuery = AllTransactionsQuery(
    ordering: Option<string>, executed: Option<bool>, queued: Option<bool>, limit: Option<nat>, offset: Option<nat>)

  function AllTransactionsField(q: AllTransactionsQuery): string {
    Join([OrUndefined(q.ordering), BoolOrUndefined(q.executed), BoolOrUndefined(q.queued),
          NumberOrUndefined(q.limit), NumberOrUndefined(q.offset)])
  }

  /** All-transactions queries share a field exactly when they agree, for orderings without the separator. */
  lemma AllTransactionsFieldInjective(p: AllTransactionsQuery, q: AllTransactionsQuery)
    requires Plain(OrUndefined(p.ordering)) && Plain(OrUndefined(q.ordering))
    ensures AllTransactionsField(p) == AllTransactionsField(q) <==>
            && OrUndefined(p.ordering) == OrUndefined(q.ordering)
            && p.executed == q.executed && p.queued == q.queued && p.limit == q.limit && p.offset == q.offset
  {
    if AllTransactionsField(p) == AllTransactionsField(q) {
      NumberTextInjective(p.limit, q.limit);
      NumberTextInjective(q.limit, p.limit);
      NumberTextInjective(p.offset, q.offset);
      NumberTextInjective(q.offset, p.offset);
      var ps := [OrUndefined(p.ordering), BoolOrUndefined(p.executed), BoolOrUndefined(p.queued),
                 NumberOrUndefined(p.limit), NumberOrUndefined(p.offset)];
      var qs := [OrUndefined(q.ordering), BoolOrUndefined(q.executed), BoolOrUndefined(q.queued),
                 NumberOrUndefined(q.limit), NumberOrUndefined(q.offset)];
      JoinInjective(ps, qs);
      assert ps[0] == qs[0] && ps[1] == qs[1] && ps[2] == qs[2] && ps[3] == qs[3] && ps[4] == qs[4];
      BoolTextInjective(p.executed, q.executed);
      BoolTextInjective(p.queued, q.queued);
    }
  }
}
