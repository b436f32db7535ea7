/**
 Who is charged for a relayed call (src/domain/relay/limit-addresses.mapper.ts). ABI decoding, the
 deployments and the Safe service are given by an `Env`; an answer `None` of a decoder is a throw.
 */
module LimitAddresses {
  import opened Prelude
  import opened MultiSend

  type Address = Bytes

  datatype SafeCall =
    | ExecTransaction(to: Address, value: nat, data: Bytes)
    | Setup(owners: seq<Address>)
    | OtherSafeCall

  datatype Erc20Call =
    | Transfer(to: Address)
    | TransferFrom(sender: Address, recipient: Address)
    | OtherErc20Call

  /** A decoded call on a delay modifier. */
  datatype DelayCall =
    | Recovery(to: Address, data: Bytes)        // execTransactionFromModule or executeNextTx
    | OtherDelayCall

  datatype ProxyCall =
    | CreateProxyWithNonce(singleton: Address, initializer: Bytes)
    | OtherProxyCall

  datatype Env = Env(
    delay: Bytes -> Option<DelayCall>,
    safe: Bytes -> Option<SafeCall>,
    isOwnerManagement: Bytes -> bool,           // addOwnerWithThreshold, removeOwner, swapOwner or changeThreshold
    erc20: Bytes -> Option<Erc20Call>,
    isTransfer: Bytes -> bool,
    isTransferFrom: Bytes -> bool,
    isMultiSend: Bytes -> bool,
    multiSendArgs: Bytes -> Option<Bytes>,
    proxyFactory: Bytes -> Option<ProxyCall>,
    isOfficialMultiSend: Address -> bool,
    isOfficialProxyFactory: Address -> bool,
    isOfficialSingleton: Address -> bool,
    isSafe: Address -> bool,                    // getSafe resolves
    safesByModule: Address -> Option<seq<Address>>)

  datatype Error =
    | UnofficialMasterCopy | UnofficialMultiSend | InvalidMultiSend | UnofficialProxyFactory | InvalidTransfer
    | Thrown                                    // any other exception: a decoder's, the network's, a TypeError

  datatype Call = Call(to: Address, data: Bytes)

  /** Selectors differ: no calldata is a call of two of the contracts, delay modifier, Safe, MultiSend and
      proxy factory. */
  ghost predicate DistinctSelectors(env: Env) {
    && (forall d :: env.isMultiSend(d) ==> env.delay(d).None? && env.safe(d).None? && env.proxyFactory(d).None?)
    && (forall d :: env.delay(d).Some? ==> env.safe(d).None? && env.proxyFactory(d).None?)
    && (forall d :: env.safe(d).Some? ==> env.proxyFactory(d).None?)
  }

  function MapMultiSend(env: Env, data: Bytes): seq<Transaction> {
    match env.multiSendArgs(data)
    case None => []
    case Some(args) => Decode(args)
  }

  function Calls(ts: seq<Transaction>): (cs: seq<Call>)
    ensures |cs| == |ts| && forall i :: 0 <= i < |ts| ==> cs[i] == Call(ts[i].to, ts[i].data)
  {
    seq(|ts|, i requires 0 <= i < |ts| => Call(ts[i].to, ts[i].data))
  }

  // ---- recovery ----

  function DecodeTransactions(env: Env, address: Address, data: Bytes): seq<Call> {
    if env.isOfficialMultiSend(address) && env.isMultiSend(data) then Calls(MapMultiSend(env, data))
    else [Call(address, data)]
  }

  predicate IsOwnerManagementTransaction(env: Env, data: Bytes) {
    match env.safe(data)
    case Some(ExecTransaction(_, _, inner)) => env.isOwnerManagement(inner)
    case _ => false
  }

  predicate EveryOwnerManagement(env: Env, cs: seq<Call>) {
    cs == [] || (IsOwnerManagementTransaction(env, cs[0].data) && EveryOwnerManagement(env, cs[1..]))
  }

  predicate EveryEnabled(cs: seq<Call>, first: Address, safes: seq<Address>) {
    cs == [] || (cs[0].to == first && cs[0].to in safes && EveryEnabled(cs[1..], first, safes))
  }

  function GetSafeBeingRecovered(env: Env, to: Address, data: Bytes): Result<Option<Address>, Error> {
    match env.delay(data)
    case Some(Recovery(inner, innerData)) =>
      var cs := DecodeTransactions(env, inner, innerData);
      if !EveryOwnerManagement(env, cs) then Ok(None)
      else (
        match env.safesByModule(to)
        case None => Err(Thrown)
        case Some(safes) =>
          if cs == [] then Err(Thrown)          // transactions[0].to of an empty list
          else if !EveryEnabled(cs, cs[0].to, safes) then Ok(None)
          else Ok(Some(cs[0].to)))
    case _ => Ok(None)
  }

  // ---- execTransaction ----

  function IsValidErc20Transfer(env: Env, to: Address, data: Bytes): Result<bool, Error> {
    match env.erc20(data)
    case None => Err(Thrown)
    case Some(Transfer(recipient)) => Ok(recipient != to)
    case _ => Ok(false)
  }

  function IsValidErc20TransferFrom(env: Env, to: Address, data: Bytes): Result<bool, Error> {
    match env.erc20(data)
    case None => Err(Thrown)
    case Some(TransferFrom(sender, recipient)) => Ok(sender != recipient && recipient != to)
    case _ => Ok(false)
  }

  function IsValidExecTransactionCall(env: Env, to: Address, data: Bytes): Result<bool, Error> {
    match env.safe(data)
    case Some(ExecTransaction(innerTo, value, inner)) =>
      if env.isTransfer(inner) then IsValidErc20Transfer(env, to, inner)
      else if env.isTransferFrom(inner) then IsValidErc20TransferFrom(env, to, inner)
      else if innerTo != to then Ok(true)
      else if value > 0 then Ok(false)
      else Ok(inner == [] || env.safe(inner).Some?)
    case _ => Ok(false)
  }

  /** `transactions.every(isValidExecTransactionCall)`: stops at the first false or throw. */
  function EveryValid(env: Env, cs: seq<Call>): Result<bool, Error> {
    if cs == [] then Ok(true)
    else
      match IsValidExecTransactionCall(env, cs[0].to, cs[0].data)
      case Ok(true) => EveryValid(env, cs[1..])
      case other => other
  }

  predicate EveryAimedAt(cs: seq<Call>, first: Address) {
    cs == [] || (cs[0].to == first && EveryAimedAt(cs[1..], first))
  }

  function GetSafeAddressFromMultiSend(env: Env, data: Bytes): Result<Address, Error> {
    var cs := Calls(MapMultiSend(env, data));
    match EveryValid(env, cs)
    case Err(e) => Err(e)
    case Ok(false) => Err(InvalidMultiSend)
    case Ok(true) =>
      if cs == [] then Err(Thrown)              // transactions[0].to of an empty list
      else if !EveryAimedAt(cs, cs[0].to) then Err(InvalidMultiSend)
      else Ok(cs[0].to)
  }

  function IsValidCreateProxyWithNonceCall(env: Env, data: Bytes): bool {
    match env.proxyFactory(data)
    case Some(CreateProxyWithNonce(singleton, _)) => env.isOfficialSingleton(singleton)
    case _ => false
  }

  function GetOwnersFromCreateProxyWithNonce(env: Env, data: Bytes): Result<seq<Address>, Error> {
    match env.proxyFactory(data)
    case Some(CreateProxyWithNonce(_, initializer)) => (
      match env.safe(initializer)
      case Some(Setup(owners)) => Ok(owners)
      case _ => Err(Thrown))
    case _ => Err(Thrown)
  }

  function GetLimitAddresses(env: Env, to: Address, data: Bytes): Result<seq<Address>, Error> {
    match GetSafeBeingRecovered(env, to, data)
    case Err(e) => Err(e)
    case Ok(Some(safe)) => Ok([safe])
    case Ok(None) =>
      match IsValidExecTransactionCall(env, to, data)
      case Err(e) => Err(e)
      case Ok(true) => if env.isSafe(to) then Ok([to]) else Err(UnofficialMasterCopy)
      case Ok(false) =>
        if env.isMultiSend(data) then
          if !env.isOfficialMultiSend(to) then Err(UnofficialMultiSend)
          else
            match GetSafeAddressFromMultiSend(env, data)
            case Err(e) => Err(e)
            case Ok(safe) => if env.isSafe(safe) then Ok([safe]) else Err(UnofficialMasterCopy)
        else if IsValidCreateProxyWithNonceCall(env, data) then
          if !env.isOfficialProxyFactory(to) then Err(UnofficialProxyFactory)
          else GetOwnersFromCreateProxyWithNonce(env, data)
        else Err(InvalidTransfer)
  }

  // ---- what the loops decide ----

  lemma {:induction false} EveryValidMeansAll(env: Env, cs: seq<Call>)
    ensures EveryValid(env, cs) == Ok(true) <==>
            forall i :: 0 <= i < |cs| ==> IsValidExecTransactionCall(env, cs[i].to, cs[i].data) == Ok(true)
  {
    if cs != [] {
      EveryValidMeansAll(env, cs[1..]);
      if forall i :: 0 <= i < |cs| ==> IsValidExecTransactionCall(env, cs[i].to, cs[i].data) == Ok(true) {
        assert forall i :: 0 <= i < |cs[1..]| ==> cs[1..][i] == cs[i + 1];
      }
      if EveryValid(env, cs) == Ok(true) {
        forall i | 0 <= i < |cs| ensures IsValidExecTransactionCall(env, cs[i].to, cs[i].data) == Ok(true) {
          assert i > 0 ==> cs[i] == cs[1..][i - 1];
        }
      }
    }
  }

  lemma {:induction false} EveryAimedMeansAll(cs: seq<Call>, first: Address)
    ensures EveryAimedAt(cs, first) <==> forall i :: 0 <= i < |cs| ==> cs[i].to == first
  {
    if cs != [] {
      EveryAimedMeansAll(cs[1..], first);
      assert forall i :: 0 < i < |cs| ==> cs[i] == cs[1..][i - 1];
    }
  }

  lemma {:induction false} EveryOwnerManagementMeansAll(env: Env, cs: seq<Call>)
    ensures EveryOwnerManagement(env, cs) <==> forall i :: 0 <= i < |cs| ==> IsOwnerManagementTransaction(env, cs[i].data)
  {
    if cs != [] {
      EveryOwnerManagementMeansAll(env, cs[1..]);
      assert forall i :: 0 < i < |cs| ==> cs[i] == cs[1..][i - 1];
    }
  }

  lemma {:induction false} EveryEnabledMeansAll(cs: seq<Call>, first: Address, safes: seq<Address>)
    ensures EveryEnabled(cs, first, safes) <==> forall i :: 0 <= i < |cs| ==> cs[i].to == first && first in safes
  {
    if cs != [] {
      EveryEnabledMeansAll(cs[1..], first, safes);
      assert forall i :: 0 < i < |cs| ==> cs[i] == cs[1..][i - 1];
    }
  }

  // ---- the batch branch ----

  /** A batch entry that is a valid execTransaction of the Safe `a`. */
  predicate ValidFor(env: Env, t: Transaction, a: Address) {
    t.to == a && IsValidExecTransactionCall(env, a, t.data) == Ok(true)
  }

  /**
   * Calldata of `multiSend` charges exactly `[a]` if and only if it is sent to an official
   * MultiSend, its list is not empty, every entry is a valid execTransaction aimed at `a`, and
   * `a` is a Safe.
   */
  lemma BatchChargesExactly(env: Env, to: Address, data: Bytes, a: Address)
    requires DistinctSelectors(env) && env.isMultiSend(data)
    ensures GetLimitAddresses(env, to, data) == Ok([a]) <==>
            && env.isOfficialMultiSend(to)
            && MapMultiSend(env, data) != []
            && (forall i :: 0 <= i < |MapMultiSend(env, data)| ==> ValidFor(env, MapMultiSend(env, data)[i], a))
            && env.isSafe(a)
  {
    var ts := MapMultiSend(env, data);
    var cs := Calls(ts);
    EveryValidMeansAll(env, cs);
    if cs != [] {
      EveryAimedMeansAll(cs, cs[0].to);
    }
    assert env.delay(data).None? && env.safe(data).None?;
    assert GetSafeBeingRecovered(env, to, data) == Ok(None);
    if forall i :: 0 <= i < |ts| ==> ValidFor(env, ts[i], a) {
      assert forall i :: 0 <= i < |cs| ==> ValidFor(env, ts[i], a);
    }
  }

  /**
   * What a Safe `a` may do at the relay's cost: tokens only to somebody else, and never from
   * somebody to themselves; a call to `a` itself only without value, cancelling or calling the Safe.
   */
  predicate Outgoing(env: Env, a: Address, data: Bytes) {
    match env.safe(data)
    case Some(ExecTransaction(target, value, inner)) => (
      if env.isTransfer(inner) then
        match env.erc20(inner)
        case Some(Transfer(recipient)) => recipient != a
        case _ => false
      else if env.isTransferFrom(inner) then
        match env.erc20(inner)
        case Some(TransferFrom(sender, recipient)) => sender != recipient && recipient != a
        case _ => false
      else target == a ==> value == 0 && (inner == [] || env.safe(inner).Some?))
    case _ => false
  }

  /** Every entry of a charged batch is such an action of the one Safe that is charged. */
  lemma ChargedBatchIsOutgoing(env: Env, to: Address, data: Bytes, a: Address, i: nat)
    requires DistinctSelectors(env) && env.isMultiSend(data)
    requires GetLimitAddresses(env, to, data) == Ok([a]) && i < |MapMultiSend(env, data)|
    ensures MapMultiSend(env, data)[i].to == a && Outgoing(env, a, MapMultiSend(env, data)[i].data)
  {
    BatchChargesExactly(env, to, data, a);
    assert ValidFor(env, MapMultiSend(env, data)[i], a);
  }

  /** A plain execTransaction charges its own Safe if and only if it is such an action of a Safe. */
  lemma ExecTransactionChargesExactly(env: Env, to: Address, data: Bytes)
    requires DistinctSelectors(env) && env.safe(data).Some?
    ensures GetLimitAddresses(env, to, data) == Ok([to]) <==> Outgoing(env, to, data) && env.isSafe(to)
  {
    assert env.delay(data).None? && !env.isMultiSend(data) && env.proxyFactory(data).None?;
    assert IsValidExecTransactionCall(env, to, data) == Ok(true) <==> Outgoing(env, to, data);
  }

  /** A `multiSend` never charges anything but one Safe. */
  lemma BatchChargesOneOrNone(env: Env, to: Address, data: Bytes)
    requires DistinctSelectors(env) && env.isMultiSend(data)
    ensures GetLimitAddresses(env, to, data).Err? || exists a :: GetLimitAddresses(env, to, data) == Ok([a])
  {
    assert GetSafeBeingRecovered(env, to, data) == Ok(None);
    if GetLimitAddresses(env, to, data).Ok? {
      assert GetLimitAddresses(env, to, data) == Ok([GetSafeAddressFromMultiSend(env, data).value]);
    }
  }

  /** Every encoded list of valid execTransactions of one Safe is accepted, whatever its length or order. */
  lemma EncodedBatchIsAccepted(env: Env, to: Address, data: Bytes, ts: seq<Transaction>, a: Address)
    requires DistinctSelectors(env) && env.isMultiSend(data)
    requires env.multiSendArgs(data) == Some(Encode(ts)) && AllWellFormed(ts)
    requires env.isOfficialMultiSend(to) && env.isSafe(a)
    requires ts != [] && forall i :: 0 <= i < |ts| ==> ValidFor(env, ts[i], a)
    ensures GetLimitAddresses(env, to, data) == Ok([a])
  {
    DecodeEncodedArgs(env, data, ts);
    BatchChargesExactly(env, to, data, a);
  }

  lemma DecodeEncodedArgs(env: Env, data: Bytes, ts: seq<Transaction>)
    requires env.multiSendArgs(data) == Some(Encode(ts)) && AllWellFormed(ts)
    ensures MapMultiSend(env, data) == ts
  {
    DecodeEncode(ts, []);
    assert Encode(ts) + [] == Encode(ts);
    assert Decode([]) == [];
  }

  /** Two encoded batches with the same entries, in any order and any number, are decided alike. */
  lemma OrderDoesNotMatter(env: Env, to: Address, data1: Bytes, data2: Bytes,
                           ts1: seq<Transaction>, ts2: seq<Transaction>, a: Address)
    requires DistinctSelectors(env) && env.isMultiSend(data1) && env.isMultiSend(data2)
    requires env.multiSendArgs(data1) == Some(Encode(ts1)) && AllWellFormed(ts1)
    requires env.multiSendArgs(data2) == Some(Encode(ts2)) && AllWellFormed(ts2)
    requires forall t :: t in ts1 <==> t in ts2
    ensures GetLimitAddresses(env, to, data1) == Ok([a]) <==> GetLimitAddresses(env, to, data2) == Ok([a])
  {
    DecodeEncodedArgs(env, data1, ts1);
    DecodeEncodedArgs(env, data2, ts2);
    BatchChargesExactly(env, to, data1, a);
    BatchChargesExactly(env, to, data2, a);
    SameEntriesSameVerdict(env, ts1, ts2, a);
    SameEntriesSameVerdict(env, ts2, ts1, a);
  }

  lemma SameEntriesSameVerdict(env: Env, ts1: seq<Transaction>, ts2: seq<Transaction>, a: Address)
    requires forall t :: t in ts1 <==> t in ts2
    ensures ts1 != [] && (forall i :: 0 <= i < |ts1| ==> ValidFor(env, ts1[i], a)) ==>
            ts2 != [] && (forall i :: 0 <= i < |ts2| ==> ValidFor(env, ts2[i], a))
  {
    if ts1 != [] && forall i :: 0 <= i < |ts1| ==> ValidFor(env, ts1[i], a) {
      assert ts1[0] in ts2;
      forall i | 0 <= i < |ts2| ensures ValidFor(env, ts2[i], a) {
        assert ts2[i] in ts1;
      }
    }
  }

  // ---- the recovery branch ----

  /** The Safe a delay modifier call recovers: the one Safe, with that module enabled, of which every call manages owners. */
  lemma RecoveryExactly(env: Env, to: Address, data: Bytes, a: Address)
    ensures GetSafeBeingRecovered(env, to, data) == Ok(Some(a)) <==>
            && env.delay(data).Some? && env.delay(data).value.Recovery?
            && env.safesByModule(to).Some? && a in env.safesByModule(to).value
            && var cs := DecodeTransactions(env, env.delay(data).value.to, env.delay(data).value.data);
               cs != [] && forall i :: 0 <= i < |cs| ==> cs[i].to == a && IsOwnerManagementTransaction(env, cs[i].data)
  {
    if env.delay(data).Some? && env.delay(data).value.Recovery? {
      var cs := DecodeTransactions(env, env.delay(data).value.to, env.delay(data).value.data);
      EveryOwnerManagementMeansAll(env, cs);
      if cs != [] && env.safesByModule(to).Some? {
        EveryEnabledMeansAll(cs, cs[0].to, env.safesByModule(to).value);
      }
    }
  }

  /**
   * A recovery charges exactly `[a]` if and only if its module is enabled on `a` and what it does is
   * to manage the owners of `a`: as one execTransaction of `a`, or, through an official MultiSend, as
   * a list of at least one, all of `a`.
   */
  lemma RecoveryChargesExactly(env: Env, to: Address, data: Bytes, target: Address, inner: Bytes, a: Address)
    requires DistinctSelectors(env) && env.delay(data) == Some(Recovery(target, inner))
    ensures GetLimitAddresses(env, to, data) == Ok([a]) <==>
            && env.safesByModule(to).Some? && a in env.safesByModule(to).value
            && if env.isOfficialMultiSend(target) && env.isMultiSend(inner) then
                 var ts := MapMultiSend(env, inner);
                 && ts != []
                 && (forall i :: 0 <= i < |ts| ==> ts[i].to == a)
                 && forall i :: 0 <= i < |ts| ==>
                      match env.safe(ts[i].data)
                      case Some(ExecTransaction(_, _, call)) => env.isOwnerManagement(call)
                      case _ => false
               else
                 && target == a
                 && match env.safe(inner)
                    case Some(ExecTransaction(_, _, call)) => env.isOwnerManagement(call)
                    case _ => false
  {
    RecoveryExactly(env, to, data, a);
    var cs := DecodeTransactions(env, target, inner);
    if env.isOfficialMultiSend(target) && env.isMultiSend(inner) {
      var ts := MapMultiSend(env, inner);
      assert |cs| == |ts| && forall i :: 0 <= i < |ts| ==> cs[i] == Call(ts[i].to, ts[i].data);
    } else {
      assert cs == [Call(target, inner)];
      assert cs[0] == Call(target, inner);
    }
    OnlyRecoveryCharges(env, to, data);
  }

  /** Of a delay modifier's calls only a recovery charges anybody. */
  lemma OnlyRecoveryCharges(env: Env, to: Address, data: Bytes)
    requires DistinctSelectors(env) && env.delay(data).Some?
    ensures forall a :: GetLimitAddresses(env, to, data) == Ok([a]) <==> GetSafeBeingRecovered(env, to, data) == Ok(Some(a))
  {
    assert !env.isMultiSend(data);
  }

  /** The creation of a Safe is accepted, and charges all its owners, if and only if factory and singleton are
      official and the new Safe is set up with these owners. */
  lemma CreationChargesItsOwners(env: Env, to: Address, data: Bytes, singleton: Address, initializer: Bytes, owners: seq<Address>)
    requires DistinctSelectors(env) && env.proxyFactory(data) == Some(CreateProxyWithNonce(singleton, initializer))
    ensures GetLimitAddresses(env, to, data) == Ok(owners) <==>
            env.isOfficialProxyFactory(to) && env.isOfficialSingleton(singleton) && env.safe(initializer) == Some(Setup(owners))
  {
    assert env.delay(data).None? && env.safe(data).None? && !env.isMultiSend(data);
  }

  /** Why a batch, a creation or anything else is refused, where the source names a reason of its own. */
  lemma RefusalReasons(env: Env, to: Address, data: Bytes)
    requires DistinctSelectors(env) && env.delay(data).None?
    ensures var r := GetLimitAddresses(env, to, data);
            && (r == Err(UnofficialMultiSend) <==> env.isMultiSend(data) && !env.isOfficialMultiSend(to))
            && (r == Err(UnofficialProxyFactory) <==>
                  && env.proxyFactory(data).Some? && env.proxyFactory(data).value.CreateProxyWithNonce?
                  && env.isOfficialSingleton(env.proxyFactory(data).value.singleton) && !env.isOfficialProxyFactory(to))
            && (env.safe(data).Some? && Outgoing(env, to, data) && !env.isSafe(to) ==> r == Err(UnofficialMasterCopy))
            && (env.safe(data).None? && !env.isMultiSend(data) && env.proxyFactory(data).None? ==> r == Err(InvalidTransfer))
  {
    var cs := Calls(MapMultiSend(env, data));
    EveryValidErrors(env, cs);
  }

  /** An official batch is refused as invalid if and only if the first entry that is no valid execTransaction is
      found so without a decoder throwing, or all are valid but they do not aim at one Safe. */
  lemma InvalidBatchIff(env: Env, to: Address, data: Bytes)
    requires DistinctSelectors(env) && env.isMultiSend(data) && env.isOfficialMultiSend(to)
    ensures var ts := MapMultiSend(env, data);
            GetLimitAddresses(env, to, data) == Err(InvalidMultiSend) <==>
            || (exists i :: && 0 <= i < |ts| && IsValidExecTransactionCall(env, ts[i].to, ts[i].data) == Ok(false)
                            && forall j :: 0 <= j < i ==> IsValidExecTransactionCall(env, ts[j].to, ts[j].data) == Ok(true))
            || ((forall i :: 0 <= i < |ts| ==> IsValidExecTransactionCall(env, ts[i].to, ts[i].data) == Ok(true))
                && exists i :: 0 <= i < |ts| && ts[i].to != ts[0].to)
  {
    var ts := MapMultiSend(env, data);
    var cs := Calls(ts);
    EveryValidMeansAll(env, cs);
    EveryValidErrors(env, cs);
    FirstInvalid(env, cs);
    if cs != [] {
      EveryAimedMeansAll(cs, cs[0].to);
    }
    assert forall i :: 0 <= i < |ts| ==> cs[i] == Call(ts[i].to, ts[i].data);
    assert GetSafeBeingRecovered(env, to, data) == Ok(None) && IsValidExecTransactionCall(env, to, data) == Ok(false);
  }

  lemma {:induction false} FirstInvalid(env: Env, cs: seq<Call>)
    ensures EveryValid(env, cs) == Ok(false) <==>
            exists i :: && 0 <= i < |cs| && IsValidExecTransactionCall(env, cs[i].to, cs[i].data) == Ok(false)
                        && forall j :: 0 <= j < i ==> IsValidExecTransactionCall(env, cs[j].to, cs[j].data) == Ok(true)
  {
    if cs != [] {
      FirstInvalid(env, cs[1..]);
      assert forall i :: 0 < i < |cs| ==> cs[i] == cs[1..][i - 1];
      if IsValidExecTransactionCall(env, cs[0].to, cs[0].data) == Ok(true) && EveryValid(env, cs) == Ok(false) {
        var i :| && 0 <= i < |cs[1..]| && IsValidExecTransactionCall(env, cs[1..][i].to, cs[1..][i].data) == Ok(false)
                 && forall j :: 0 <= j < i ==> IsValidExecTransactionCall(env, cs[1..][j].to, cs[1..][j].data) == Ok(true);
        assert cs[i + 1] == cs[1..][i];
      }
    }
  }

  lemma {:induction false} EveryValidErrors(env: Env, cs: seq<Call>)
    ensures EveryValid(env, cs).Err? ==> EveryValid(env, cs).error == Thrown
  {
    if cs != [] {
      EveryValidErrors(env, cs[1..]);
    }
  }

  /** Outside proxy creation exactly one address is charged; the call never succeeds with nobody to charge,
      unless the Safe being created is set up without owners. */
  lemma SomebodyIsCharged(env: Env, to: Address, data: Bytes)
    requires GetLimitAddresses(env, to, data).Ok?
    ensures var charged := GetLimitAddresses(env, to, data).value;
            || |charged| == 1
            || (&& env.proxyFactory(data).Some? && env.proxyFactory(data).value.CreateProxyWithNonce?
                && env.isOfficialProxyFactory(to) && env.isOfficialSingleton(env.proxyFactory(data).value.singleton)
                && env.safe(env.proxyFactory(data).value.initializer) == Some(Setup(charged)))
  {
  }
}
