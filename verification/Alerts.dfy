/** Replaying a batch of owner changes on a copy of a Safe (src/domain/alerts/alerts.repository.ts). */
module Alerts {
  import opened Prelude

  datatype Change =
    | AddOwnerWithThreshold(owner: string, threshold: nat)
    | RemoveOwner(owner: string, threshold: nat)
    | SwapOwner(oldOwner: string, newOwner: string)
    | ChangeThreshold(threshold: nat)

  datatype Setup = Setup(owners: seq<string>, threshold: nat)

  predicate SameOwner(a: string, b: string) {
    Lower(a) == Lower(b)
  }

  predicate IsOwner(owners: seq<string>, owner: string) {
    exists i :: 0 <= i < |owners| && SameOwner(owners[i], owner)
  }

  /** No owner twice, whatever the case of its letters. */
  ghost predicate DuplicateFree(owners: seq<string>) {
    forall i, j :: 0 <= i < j < |owners| ==> !SameOwner(owners[i], owners[j])
  }

  function Without(owners: seq<string>, owner: string): seq<string> {
    if owners == [] then []
    else (if SameOwner(owners[0], owner) then [] else [owners[0]]) + Without(owners[1..], owner)
  }

  function Swapped(owners: seq<string>, oldOwner: string, newOwner: string): (s: seq<string>)
    ensures |s| == |owners|
    ensures forall i :: 0 <= i < |s| ==> s[i] == if SameOwner(owners[i], oldOwner) then newOwner else owners[i]
  {
    seq(|owners|, i requires 0 <= i < |owners| => if SameOwner(owners[i], oldOwner) then newOwner else owners[i])
  }

  function Replay1(s: Setup, c: Change): Setup {
    match c
    case AddOwnerWithThreshold(owner, threshold) => Setup(s.owners + [owner], threshold)
    case RemoveOwner(owner, threshold) => Setup(Without(s.owners, owner), threshold)
    case SwapOwner(oldOwner, newOwner) => Setup(Swapped(s.owners, oldOwner, newOwner), s.threshold)
    case ChangeThreshold(threshold) => Setup(s.owners, threshold)
  }

  function Replay(s: Setup, changes: seq<Change>): Setup {
    if changes == [] then s
    else Replay1(Replay(s, changes[..|changes| - 1]), changes[|changes| - 1])
  }

  // ---- the same, told owner by owner ----

  /** What becomes of one owner under a batch: gone, or under the name it has last been swapped to. */
  function Fate(owner: string, changes: seq<Change>): Option<string>
    decreases |changes|
  {
    if changes == [] then Some(owner)
    else
      match changes[0]
      case RemoveOwner(removed, _) => if SameOwner(owner, removed) then None else Fate(owner, changes[1..])
      case SwapOwner(oldOwner, newOwner) => Fate(if SameOwner(owner, oldOwner) then newOwner else owner, changes[1..])
      case _ => Fate(owner, changes[1..])
  }

  function One(owner: Option<string>): seq<string> {
    match owner
    case None => []
    case Some(name) => [name]
  }

  /** The owners the batch leaves of a list, each under its last name, in their order. */
  function Survivors(owners: seq<string>, changes: seq<Change>): seq<string> {
    if owners == [] then [] else One(Fate(owners[0], changes)) + Survivors(owners[1..], changes)
  }

  /** The owners a batch adds, in its order, under the names later changes leave them, unless these remove them. */
  function Added(changes: seq<Change>): seq<string> {
    if changes == [] then []
    else (if changes[0].AddOwnerWithThreshold? then One(Fate(changes[0].owner, changes[1..])) else []) + Added(changes[1..])
  }

  /** The threshold a change carries. */
  function Carried(c: Change): Option<nat> {
    match c
    case AddOwnerWithThreshold(_, threshold) => Some(threshold)
    case RemoveOwner(_, threshold) => Some(threshold)
    case SwapOwner(_, _) => None
    case ChangeThreshold(threshold) => Some(threshold)
  }

  /** The threshold is the one of the last change that carries any, else the one before the batch. */
  ghost predicate LastCarried(changes: seq<Change>, before: nat, after: nat) {
    && (forall i :: 0 <= i < |changes| && Carried(changes[i]) != None && (forall j :: i < j < |changes| ==> Carried(changes[j]) == None) ==>
          Carried(changes[i]) == Some(after))
    && ((forall i :: 0 <= i < |changes| ==> Carried(changes[i]) == None) ==> after == before)
  }

  lemma {:induction false} ReplayThreshold(s: Setup, changes: seq<Change>)
    ensures LastCarried(changes, s.threshold, Replay(s, changes).threshold)
    decreases |changes|
  {
    if changes != [] {
      var before, last := changes[..|changes| - 1], changes[|changes| - 1];
      ReplayThreshold(s, before);
      if Carried(last) == None {
        assert forall i :: 0 <= i < |before| ==> before[i] == changes[i];
        forall i | 0 <= i < |changes| && Carried(changes[i]) != None && (forall j :: i < j < |changes| ==> Carried(changes[j]) == None)
          ensures Carried(changes[i]) == Some(Replay(s, changes).threshold)
        {
          assert before[i] == changes[i];
          assert forall j :: i < j < |before| ==> Carried(before[j]) == None;
        }
      } else {
        assert Carried(changes[|changes| - 1]) == Some(Replay(s, changes).threshold);
      }
    }
  }

  lemma {:induction false} SurvivorsConcat(a: seq<string>, b: seq<string>, changes: seq<Change>)
    ensures Survivors(a + b, changes) == Survivors(a, changes) + Survivors(b, changes)
  {
    if a == [] {
      assert a + b == b;
    } else {
      assert (a + b)[1..] == a[1..] + b;
      SurvivorsConcat(a[1..], b, changes);
    }
  }

  /** One change, then the rest of the batch, owner by owner. */
  lemma {:induction false} SurvivorsOfChange(owners: seq<string>, c: Change, rest: seq<Change>)
    requires !c.AddOwnerWithThreshold?
    ensures Survivors(owners, [c] + rest) == Survivors(Replay1(Setup(owners, 0), c).owners, rest)
  {
    if owners != [] {
      SurvivorsOfChange(owners[1..], c, rest);
      assert ([c] + rest)[1..] == rest;
      match c {
        case RemoveOwner(removed, _) =>
          if SameOwner(owners[0], removed) {
            assert Without(owners, removed) == Without(owners[1..], removed);
          } else {
            assert ([owners[0]] + Without(owners[1..], removed))[1..] == Without(owners[1..], removed);
          }
        case SwapOwner(oldOwner, newOwner) =>
          assert Swapped(owners, oldOwner, newOwner)[1..] == Swapped(owners[1..], oldOwner, newOwner);
        case ChangeThreshold(_) =>
      }
    }
  }

  lemma {:induction false} SurvivorsOfAdd(owners: seq<string>, c: Change, rest: seq<Change>)
    requires c.AddOwnerWithThreshold?
    ensures Survivors(owners, [c] + rest) == Survivors(owners, rest)
  {
    if owners != [] {
      SurvivorsOfAdd(owners[1..], c, rest);
      assert ([c] + rest)[1..] == rest;
    }
  }

  lemma {:induction false} NothingChanged(owners: seq<string>)
    ensures Survivors(owners, []) == owners
  {
    if owners != [] {
      NothingChanged(owners[1..]);
    }
  }

  /** The replay, change by change, leaves the survivors of the old owners and then those of the added ones. */
  lemma {:induction false} ReplayOwners(s: Setup, changes: seq<Change>)
    ensures Replay(s, changes).owners == Survivors(s.owners, changes) + Added(changes)
    decreases |changes|
  {
    if changes == [] {
      NothingChanged(s.owners);
    } else {
      var c, rest := changes[0], changes[1..];
      assert changes == [c] + rest;
      var t := Replay1(s, c);
      ReplayConcat(s, [c], rest);
      assert [c][..0] == [] && Replay(s, [c]) == t;
      ReplayOwners(t, rest);
      OwnersOfOneMore(s, c, rest);
    }
  }

  lemma OwnersOfOneMore(s: Setup, c: Change, rest: seq<Change>)
    ensures Survivors(Replay1(s, c).owners, rest) + Added(rest) == Survivors(s.owners, [c] + rest) + Added([c] + rest)
  {
    assert ([c] + rest)[1..] == rest;
    if c.AddOwnerWithThreshold? {
      SurvivorsOfAdd(s.owners, c, rest);
      SurvivorsConcat(s.owners, [c.owner], rest);
      assert [c.owner][1..] == [];
      assert Survivors([c.owner], rest) == One(Fate(c.owner, rest));
      Associates(Survivors(s.owners, rest), One(Fate(c.owner, rest)), Added(rest));
    } else {
      SurvivorsOfChange(s.owners, c, rest);
    }
  }

  lemma Associates(a: seq<string>, b: seq<string>, c: seq<string>)
    ensures (a + b) + c == a + (b + c)
  {
  }

  /** Two owners are the same exactly when their texts differ at most in the case of letters. */
  lemma SameOwnerIff(a: string, b: string)
    ensures SameOwner(a, b) <==>
              && |a| == |b|
              && forall i :: 0 <= i < |a| ==>
                   || a[i] == b[i]
                   || ('A' <= a[i] <= 'Z' && b[i] as int == a[i] as int + 'a' as int - 'A' as int)
                   || ('A' <= b[i] <= 'Z' && a[i] as int == b[i] as int + 'a' as int - 'A' as int)
  {
    if SameOwner(a, b) {
      assert |a| == |Lower(a)| == |Lower(b)| == |b|;
      forall i | 0 <= i < |a| ensures LowerChar(a[i]) == LowerChar(b[i]) {
        assert Lower(a)[i] == Lower(b)[i];
      }
    }
  }

  /** A JavaScript array of owners: it can be pushed to in place by everybody who holds it. */
  class Owners {
    var items: seq<string>

    constructor (items: seq<string>)
      ensures this.items == items
    {
      this.items := items;
    }

    method Push(owner: string)
      modifies this
      ensures items == old(items) + [owner]
    {
      items := items + [owner];
    }
  }

  class Safe {
    var owners: Owners
    var threshold: nat

    constructor (owners: Owners, threshold: nat)
      ensures this.owners == owners && this.threshold == threshold
    {
      this.owners, this.threshold := owners, threshold;
    }

    function View(): Setup
      reads this, owners
    {
      Setup(owners.items, threshold)
    }

    /** `structuredClone`: the array of owners is copied too. */
    method Clone() returns (clone: Safe)
      ensures fresh(clone) && fresh(clone.owners) && clone.View() == View()
    {
      var copy := new Owners(owners.items);
      clone := new Safe(copy, threshold);
    }
  }

  /** `_mapSafeSetup`: the changes are applied to a clone; the Safe passed in keeps its owners, the
      array they are in and its threshold, though the fold pushes onto an array in place. */
  method MapSafeSetup(safe: Safe, decodedTransactions: seq<Change>) returns (newSafe: Safe)
    ensures fresh(newSafe) && fresh(newSafe.owners)
    ensures newSafe.View() == Replay(safe.View(), decodedTransactions)
    ensures newSafe.owners.items == Survivors(safe.owners.items, decodedTransactions) + Added(decodedTransactions)
    ensures LastCarried(decodedTransactions, safe.threshold, newSafe.threshold)
    ensures unchanged(safe) && unchanged(safe.owners)
  {
    newSafe := ReplayOnClone(safe, decodedTransactions);
    ReplayOwners(safe.View(), decodedTransactions);
    ReplayThreshold(safe.View(), decodedTransactions);
  }

  method ReplayOnClone(safe: Safe, decodedTransactions: seq<Change>) returns (newSafe: Safe)
    ensures fresh(newSafe) && fresh(newSafe.owners)
    ensures newSafe.View() == Replay(safe.View(), decodedTransactions)
    ensures unchanged(safe) && unchanged(safe.owners)
  {
    newSafe := safe.Clone();
    for i := 0 to |decodedTransactions|
      invariant fresh(newSafe) && fresh(newSafe.owners) && unchanged(safe) && unchanged(safe.owners)
      invariant newSafe.View() == Replay(safe.View(), decodedTransactions[..i])
    {
      match decodedTransactions[i] {
        case AddOwnerWithThreshold(ownerToAdd, newThreshold) =>
          newSafe.owners.Push(ownerToAdd);
          newSafe.threshold := newThreshold;
        case RemoveOwner(ownerToRemove, newThreshold) =>
          newSafe.owners := new Owners(Without(newSafe.owners.items, ownerToRemove));
          newSafe.threshold := newThreshold;
        case SwapOwner(ownerToRemove, ownerToAdd) =>
          newSafe.owners := new Owners(Swapped(newSafe.owners.items, ownerToRemove, ownerToAdd));
        case ChangeThreshold(newThreshold) =>
          newSafe.threshold := newThreshold;
      }
      assert decodedTransactions[..i + 1][..i] == decodedTransactions[..i];
    }
    assert decodedTransactions[..|decodedTransactions|] == decodedTransactions;
  }

  // ---- what the Safe contract allows ----

  /** The contract's own preconditions for one change. */
  predicate Allowed(s: Setup, c: Change) {
    match c
    case AddOwnerWithThreshold(owner, threshold) =>
      !IsOwner(s.owners, owner) && 1 <= threshold <= |s.owners| + 1
    case RemoveOwner(owner, threshold) =>
      IsOwner(s.owners, owner) && 1 <= threshold <= |s.owners| - 1
    case SwapOwner(oldOwner, newOwner) =>
      IsOwner(s.owners, oldOwner) && !IsOwner(s.owners, newOwner)
    case ChangeThreshold(threshold) =>
      1 <= threshold <= |s.owners|
  }

  predicate AllAllowed(s: Setup, changes: seq<Change>) {
    forall i :: 0 <= i < |changes| ==> Allowed(Replay(s, changes[..i]), changes[i])
  }

  ghost predicate ValidSetup(s: Setup) {
    DuplicateFree(s.owners) && 1 <= s.threshold <= |s.owners|
  }

  function Adds(changes: seq<Change>): nat {
    if changes == [] then 0
    else Adds(changes[..|changes| - 1]) + (if changes[|changes| - 1].AddOwnerWithThreshold? then 1 else 0)
  }

  function Removes(changes: seq<Change>): nat {
    if changes == [] then 0
    else Removes(changes[..|changes| - 1]) + (if changes[|changes| - 1].RemoveOwner? then 1 else 0)
  }

  lemma {:induction false} WithoutMembers(owners: seq<string>, owner: string)
    ensures forall x :: x in Without(owners, owner) <==> x in owners && !SameOwner(x, owner)
  {
    if owners != [] {
      WithoutMembers(owners[1..], owner);
      assert owners == [owners[0]] + owners[1..];
    }
  }

  lemma TailOwners(owners: seq<string>)
    requires owners != [] && DuplicateFree(owners)
    ensures DuplicateFree(owners[1..]) && !IsOwner(owners[1..], owners[0])
  {
    var rest := owners[1..];
    forall i, j | 0 <= i < j < |rest| ensures !SameOwner(rest[i], rest[j]) {
      assert !SameOwner(owners[i + 1], owners[j + 1]);
    }
    forall i | 0 <= i < |rest| ensures !SameOwner(rest[i], owners[0]) {
      assert !SameOwner(owners[0], owners[i + 1]);
    }
  }

  lemma {:induction false} WithoutAbsent(owners: seq<string>, owner: string)
    requires !IsOwner(owners, owner)
    ensures Without(owners, owner) == owners
  {
    if owners != [] {
      assert forall i :: 0 <= i < |owners[1..]| ==> owners[1..][i] == owners[i + 1];
      assert !SameOwner(owners[0], owner);
      WithoutAbsent(owners[1..], owner);
    }
  }

  lemma {:induction false} WithoutDuplicateFree(owners: seq<string>, owner: string)
    requires DuplicateFree(owners)
    ensures DuplicateFree(Without(owners, owner))
  {
    if owners != [] {
      TailOwners(owners);
      WithoutDuplicateFree(owners[1..], owner);
      WithoutMembers(owners[1..], owner);
      var w := Without(owners[1..], owner);
      forall k | 0 <= k < |w| ensures !SameOwner(owners[0], w[k]) {
        assert w[k] in owners[1..];
      }
    }
  }

  /** Of a duplicate-free list exactly one owner goes. */
  lemma {:induction false} WithoutOne(owners: seq<string>, owner: string)
    requires DuplicateFree(owners) && IsOwner(owners, owner)
    ensures |Without(owners, owner)| == |owners| - 1
  {
    TailOwners(owners);
    if SameOwner(owners[0], owner) {
      WithoutAbsent(owners[1..], owner);
    } else {
      var i :| 0 <= i < |owners| && SameOwner(owners[i], owner);
      assert owners[1..][i - 1] == owners[i];
      WithoutOne(owners[1..], owner);
    }
  }

  lemma SwappedDuplicateFree(owners: seq<string>, oldOwner: string, newOwner: string)
    requires DuplicateFree(owners) && !IsOwner(owners, newOwner)
    ensures DuplicateFree(Swapped(owners, oldOwner, newOwner))
  {
    var s := Swapped(owners, oldOwner, newOwner);
    forall i, j | 0 <= i < j < |s| ensures !SameOwner(s[i], s[j]) {
      assert !SameOwner(owners[i], owners[j]);
      assert !SameOwner(owners[i], newOwner) && !SameOwner(owners[j], newOwner);
    }
  }

  lemma AllowedStep(s: Setup, c: Change)
    requires ValidSetup(s) && Allowed(s, c)
    ensures ValidSetup(Replay1(s, c))
    ensures |Replay1(s, c).owners| == |s.owners| + (if c.AddOwnerWithThreshold? then 1 else 0) - (if c.RemoveOwner? then 1 else 0)
  {
    match c {
      case AddOwnerWithThreshold(owner, _) =>
        var owners := s.owners + [owner];
        forall i, j | 0 <= i < j < |owners| ensures !SameOwner(owners[i], owners[j]) {
          assert j < |s.owners| ==> !SameOwner(s.owners[i], s.owners[j]);
        }
      case RemoveOwner(owner, _) =>
        WithoutDuplicateFree(s.owners, owner);
        WithoutOne(s.owners, owner);
      case SwapOwner(oldOwner, newOwner) =>
        SwappedDuplicateFree(s.owners, oldOwner, newOwner);
      case ChangeThreshold(_) =>
    }
  }

  /** Nothing weaker would do: on a valid setup an addition, a removal of an owner that is there, or a new
      threshold leaves a valid setup exactly when it is allowed, and a swap for somebody new always does. */
  lemma AllowedIsExact(s: Setup, c: Change)
    requires ValidSetup(s)
    ensures c.AddOwnerWithThreshold? ==>
              (ValidSetup(Replay1(s, c)) <==> !IsOwner(s.owners, c.owner) && 1 <= c.threshold <= |s.owners| + 1)
    ensures c.RemoveOwner? && IsOwner(s.owners, c.owner) ==> (ValidSetup(Replay1(s, c)) <==> 1 <= c.threshold <= |s.owners| - 1)
    ensures c.ChangeThreshold? ==> (ValidSetup(Replay1(s, c)) <==> 1 <= c.threshold <= |s.owners|)
    ensures c.SwapOwner? && !IsOwner(s.owners, c.newOwner) ==> ValidSetup(Replay1(s, c))
    ensures Allowed(s, c) <==>
              match c
              case AddOwnerWithThreshold(_, _) => ValidSetup(Replay1(s, c))
              case RemoveOwner(owner, _) => IsOwner(s.owners, owner) && ValidSetup(Replay1(s, c))
              case SwapOwner(oldOwner, newOwner) => IsOwner(s.owners, oldOwner) && !IsOwner(s.owners, newOwner)
              case ChangeThreshold(_) => ValidSetup(Replay1(s, c))
  {
    match c {
      case AddOwnerWithThreshold(owner, threshold) => AddIsExact(s.owners, owner);
      case RemoveOwner(owner, threshold) =>
        WithoutDuplicateFree(s.owners, owner);
        if IsOwner(s.owners, owner) {
          WithoutOne(s.owners, owner);
        }
      case SwapOwner(oldOwner, newOwner) =>
        if !IsOwner(s.owners, newOwner) {
          SwappedDuplicateFree(s.owners, oldOwner, newOwner);
        }
      case ChangeThreshold(_) =>
    }
  }

  lemma AddIsExact(owners: seq<string>, owner: string)
    requires DuplicateFree(owners)
    ensures DuplicateFree(owners + [owner]) <==> !IsOwner(owners, owner)
  {
    var more := owners + [owner];
    if DuplicateFree(more) {
      forall i | 0 <= i < |owners| ensures !SameOwner(owners[i], owner) {
        assert !SameOwner(more[i], more[|owners|]);
      }
    } else {
      assert forall i, j :: 0 <= i < j < |owners| ==> !SameOwner(owners[i], owners[j]);
      assert exists i :: 0 <= i < |owners| && SameOwner(more[i], more[|owners|]);
    }
  }

  /** Any batch the contract would accept keeps the owners duplicate-free up to letter case, the
      threshold between 1 and the number of owners, and counts owners exactly. */
  lemma {:induction false} ReplayKeepsValid(s: Setup, changes: seq<Change>)
    requires ValidSetup(s) && AllAllowed(s, changes)
    ensures ValidSetup(Replay(s, changes))
    ensures |Replay(s, changes).owners| == |s.owners| + Adds(changes) - Removes(changes)
    decreases |changes|
  {
    if changes != [] {
      var before := changes[..|changes| - 1];
      assert forall i :: 0 <= i < |before| ==> before[..i] == changes[..i] && before[i] == changes[i];
      ReplayKeepsValid(s, before);
      AllowedStep(Replay(s, before), changes[|changes| - 1]);
    }
  }

  /** Replaying `a` and then `b` is replaying `a + b`. */
  lemma {:induction false} ReplayConcat(s: Setup, a: seq<Change>, b: seq<Change>)
    ensures Replay(s, a + b) == Replay(Replay(s, a), b)
    decreases |b|
  {
    if b == [] {
      assert a + b == a;
    } else {
      assert (a + b)[..|a + b| - 1] == a + b[..|b| - 1];
      ReplayConcat(s, a, b[..|b| - 1]);
    }
  }

  /** Swapping an owner out and back in restores the Safe, up to the letter case of the owner. */
  lemma SwapThereAndBack(s: Setup, a: string, b: string)
    requires ValidSetup(s) && Allowed(s, SwapOwner(a, b)) && a in s.owners
    ensures Replay(s, [SwapOwner(a, b), SwapOwner(b, a)]) == s
  {
    var there, back := SwapOwner(a, b), SwapOwner(b, a);
    assert [there, back][..1] == [there] && [there][..0] == [];
    assert Replay(s, [there]) == Replay1(Replay(s, []), there);
    SwappedBack(s.owners, a, b);
  }

  lemma SwappedBack(owners: seq<string>, a: string, b: string)
    requires DuplicateFree(owners) && !IsOwner(owners, b) && a in owners
    ensures Swapped(Swapped(owners, a, b), b, a) == owners
  {
    var back := Swapped(Swapped(owners, a, b), b, a);
    forall i | 0 <= i < |owners| ensures back[i] == owners[i] {
      if SameOwner(owners[i], a) {
        OnlyOneSpelling(owners, a, i);
      }
      SwapOneBack(owners[i], a, b);
    }
  }

  lemma OnlyOneSpelling(owners: seq<string>, a: string, i: nat)
    requires DuplicateFree(owners) && a in owners && i < |owners| && SameOwner(owners[i], a)
    ensures owners[i] == a
  {
    var k :| 0 <= k < |owners| && owners[k] == a;
    assert SameOwner(owners[i], owners[k]) && SameOwner(owners[k], owners[i]);
  }

  lemma SwapOneBack(x: string, a: string, b: string)
    requires !SameOwner(x, b) && (SameOwner(x, a) ==> x == a)
    ensures var y := if SameOwner(x, a) then b else x;
            (if SameOwner(y, b) then a else y) == x
  {
  }
}
