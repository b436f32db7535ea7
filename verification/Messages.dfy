/** Day grouping of Safe messages (src/routes/messages/messages.service.ts). */
module Messages {
  import opened Sorting
  import opened Decimal

  /** A message with the epoch milliseconds of its creation; `id` stands for everything else. */
  datatype Message = Message(created: nat, id: int)

  const MS_PER_DAY: nat := 86_400_000

  /** `Date.UTC` of the message's year, month and day: the start of its UTC day. */
  function DayStart(m: Message): (start: nat)
    ensures start % MS_PER_DAY == 0 && start <= m.created < start + MS_PER_DAY
  {
    m.created / MS_PER_DAY * MS_PER_DAY
  }

  /** The property name under which lodash `groupBy` files the message. */
  function DayKey(m: Message): string {
    ToText(DayStart(m))
  }

  /** `day2.localeCompare(day1)` as an order: the greater text first. */
  predicate KeyDesc(day1: string, day2: string) {
    LexLeq(day2, day1)
  }

  /** `m2.created - m1.created` as an order: the newer message first. */
  predicate NewestFirst(m1: Message, m2: Message) {
    m1.created >= m2.created
  }

  /** The keys of the grouped object, each once. */
  function Keys(ms: seq<Message>): seq<string> {
    if ms == [] then []
    else
      var keys := Keys(ms[..|ms| - 1]);
      var key := DayKey(ms[|ms| - 1]);
      if key in keys then keys else keys + [key]
  }

  /** The messages filed under a key, in their order in `ms`. */
  function Group(key: string, ms: seq<Message>): seq<Message> {
    if ms == [] then []
    else (if DayKey(ms[0]) == key then [ms[0]] else []) + Group(key, ms[1..])
  }

  type LabelledGroup = (nat, seq<Message>)

  function Groups(keys: seq<string>, ms: seq<Message>): seq<LabelledGroup> {
    seq(|keys|, i requires 0 <= i < |keys| => (FromText(keys[i]), Sort(NewestFirst, Group(keys[i], ms))))
  }

  function OrderedGroups(ms: seq<Message>): seq<LabelledGroup> {
    Groups(Sort(KeyDesc, Keys(ms)), ms)
  }

  function Flatten(groups: seq<LabelledGroup>): seq<Message> {
    if groups == [] then [] else groups[0].1 + Flatten(groups[1..])
  }

  // ---- orders ----

  lemma KeyDescTotal()
    ensures TotalPreorder(KeyDesc)
  {
    forall x, y ensures KeyDesc(x, y) || KeyDesc(y, x) {
      LexTotal(x, y);
    }
    forall x, y, z | KeyDesc(x, y) && KeyDesc(y, z) ensures KeyDesc(x, z) {
      LexTransitive(z, y, x);
    }
  }

  lemma NewestFirstTotal()
    ensures TotalPreorder(NewestFirst)
  {
  }

  // ---- keys and groups ----

  lemma {:induction false} KeysAreTheDays(ms: seq<Message>)
    ensures Distinct(Keys(ms))
    ensures forall key :: key in Keys(ms) <==> exists m :: m in ms && DayKey(m) == key
  {
    if ms != [] {
      var rest, last := ms[..|ms| - 1], ms[|ms| - 1];
      assert ms == rest + [last];
      KeysAreTheDays(rest);
      forall key ensures key in Keys(ms) <==> exists m :: m in ms && DayKey(m) == key {
        if key in Keys(rest) {
          var m :| m in rest && DayKey(m) == key;
          assert m in ms;
        } else if key == DayKey(last) {
          assert last in ms;
        }
      }
    }
  }

  lemma {:induction false} GroupMembers(key: string, ms: seq<Message>)
    ensures forall m :: m in Group(key, ms) <==> m in ms && DayKey(m) == key
  {
    if ms != [] {
      GroupMembers(key, ms[1..]);
      assert ms == [ms[0]] + ms[1..];
    }
  }

  /** A group keeps every message of its day that ties with `m`, in order, and no other. */
  lemma {:induction false} GroupClass(key: string, m: Message, ms: seq<Message>)
    ensures Class(NewestFirst, m, Group(key, ms)) == if DayKey(m) == key then Class(NewestFirst, m, ms) else []
  {
    if ms != [] {
      GroupClass(key, m, ms[1..]);
      var head := if DayKey(ms[0]) == key then [ms[0]] else [];
      ClassConcat(NewestFirst, m, head, Group(key, ms[1..]));
      if head != [] {
        assert head[1..] == [];
      }
    }
  }

  lemma {:induction false} FlattenClass(keys: seq<string>, m: Message, ms: seq<Message>)
    requires Distinct(keys)
    ensures Class(NewestFirst, m, Flatten(Groups(keys, ms))) ==
            if DayKey(m) in keys then Class(NewestFirst, m, ms) else []
  {
    if keys != [] {
      var gs := Groups(keys, ms);
      assert gs[1..] == Groups(keys[1..], ms);
      assert keys == [keys[0]] + keys[1..];
      FlattenClass(keys[1..], m, ms);
      NewestFirstTotal();
      SortIsStable(NewestFirst, Group(keys[0], ms));
      GroupClass(keys[0], m, ms);
      ClassConcat(NewestFirst, m, gs[0].1, Flatten(gs[1..]));
    }
  }

  // ---- when text order serves as day order ----

  /**
   * For any two days of the page, the number of the earlier one does not exceed that of the later
   * one stripped of its extra digits. Days whose numbers have equally many digits always satisfy this.
   */
  ghost predicate TextOrderIsDayOrder(ms: seq<Message>) {
    forall a, b :: a in ms && b in ms && DayStart(a) < DayStart(b) ==>
      FitsUnder(DayStart(a), DayStart(b))
  }

  lemma SameDigitCountSuffices(ms: seq<Message>)
    requires forall a, b :: a in ms && b in ms ==> |DayKey(a)| == |DayKey(b)|
    ensures TextOrderIsDayOrder(ms)
  {
    forall a, b | a in ms && b in ms && DayStart(a) < DayStart(b)
      ensures FitsUnder(DayStart(a), DayStart(b))
    {
      assert |DayKey(a)| == |DayKey(b)|;
    }
  }

  ghost predicate StrictlyDecreasing(groups: seq<LabelledGroup>) {
    forall i, j :: 0 <= i < j < |groups| ==> groups[i].0 > groups[j].0
  }

  lemma SortedKeys(ms: seq<Message>) returns (keys: seq<string>)
    ensures keys == Sort(KeyDesc, Keys(ms)) && Distinct(keys) && Sorted(KeyDesc, keys)
    ensures forall key :: key in keys <==> exists m :: m in ms && DayKey(m) == key
    ensures forall i :: 0 <= i < |keys| ==> ToText(FromText(keys[i])) == keys[i]
  {
    keys := Sort(KeyDesc, Keys(ms));
    KeyDescTotal();
    KeysAreTheDays(ms);
    SortIsStable(KeyDesc, Keys(ms));
    SortDistinct(KeyDesc, Keys(ms));
    SortMembers(KeyDesc, Keys(ms));
    forall i | 0 <= i < |keys| ensures ToText(FromText(keys[i])) == keys[i] {
      assert keys[i] in keys;
      var m :| m in ms && DayKey(m) == keys[i];
      FromToText(DayStart(m));
    }
  }

  /** The day labels come out strictly decreasing exactly when text order is day order on the page. */
  lemma LabelsDecreaseIff(ms: seq<Message>)
    ensures StrictlyDecreasing(OrderedGroups(ms)) <==> TextOrderIsDayOrder(ms)
  {
    var keys := SortedKeys(ms);
    if TextOrderIsDayOrder(ms) {
      forall i, j | 0 <= i < j < |keys| ensures FromText(keys[i]) > FromText(keys[j]) {
        assert keys[i] in keys && keys[j] in keys;
        var a :| a in ms && DayKey(a) == keys[i];
        var b :| b in ms && DayKey(b) == keys[j];
        EarlierTextIsLater(DayStart(a), DayStart(b));
      }
    }
    if StrictlyDecreasing(OrderedGroups(ms)) {
      forall a, b | a in ms && b in ms && DayStart(a) < DayStart(b)
        ensures FitsUnder(DayStart(a), DayStart(b))
      {
        assert DayKey(a) in keys && DayKey(b) in keys;
        EarlierDayFits(keys, Groups(keys, ms), DayStart(a), DayStart(b));
      }
    }
  }

  lemma EarlierDayFits(keys: seq<string>, groups: seq<LabelledGroup>, early: nat, late: nat)
    requires Sorted(KeyDesc, keys) && StrictlyDecreasing(groups)
    requires |groups| == |keys| && forall i :: 0 <= i < |keys| ==> groups[i].0 == FromText(keys[i])
    requires ToText(early) in keys && ToText(late) in keys && early < late
    ensures FitsUnder(early, late)
  {
    var i :| 0 <= i < |keys| && keys[i] == ToText(early);
    var j :| 0 <= j < |keys| && keys[j] == ToText(late);
    FromToText(early);
    FromToText(late);
    assert groups[i].0 == early && groups[j].0 == late;
    assert KeyDesc(keys[j], keys[i]);
    LexAgreesIff(early, late);
  }

  lemma EarlierTextIsLater(x: nat, y: nat)
    requires KeyDesc(ToText(x), ToText(y)) && ToText(x) != ToText(y)
    requires x < y ==> FitsUnder(x, y)
    ensures FromText(ToText(x)) > FromText(ToText(y))
  {
    FromToText(x);
    FromToText(y);
    LexTotal(ToText(x), ToText(y));
    if x < y {
      LexAgreesIff(x, y);
    }
  }

  /** Every label is the UTC day start of exactly the messages under it, newest first. */
  lemma EachMessageUnderItsDay(ms: seq<Message>, i: nat)
    requires i < |OrderedGroups(ms)|
    ensures var (day, group) := OrderedGroups(ms)[i];
            && group != []
            && Sorted(NewestFirst, group)
            && forall m :: m in group <==> m in ms && DayStart(m) == day
  {
    var keys := SortedKeys(ms);
    assert keys[i] in keys;
    NewestFirstTotal();
    SortIsStable(NewestFirst, Group(keys[i], ms));
    SortMembers(NewestFirst, Group(keys[i], ms));
    GroupMembers(keys[i], ms);
    var w :| w in ms && DayKey(w) == keys[i];
    assert w in OrderedGroups(ms)[i].1;
    forall m | m in ms ensures DayKey(m) == keys[i] <==> DayStart(m) == FromText(keys[i]) {
      FromToText(DayStart(m));
    }
  }

  /**
   * Reading the groups one after the other gives exactly the stable newest-first sort of the
   * page, when text order is day order on the page; otherwise it is not even newest first.
   */
  lemma GroupsAreTheStableSort(ms: seq<Message>)
    ensures TextOrderIsDayOrder(ms) <==> Flatten(OrderedGroups(ms)) == Sort(NewestFirst, ms)
    ensures TextOrderIsDayOrder(ms) <==> Sorted(NewestFirst, Flatten(OrderedGroups(ms)))
  {
    var keys := SortedKeys(ms);
    var flat := Flatten(OrderedGroups(ms));
    NewestFirstTotal();
    SortIsStable(NewestFirst, ms);
    LabelsDecreaseIff(ms);
    forall m ensures Class(NewestFirst, m, flat) == Class(NewestFirst, m, ms) {
      FlattenClass(keys, m, ms);
      if DayKey(m) !in keys {
        NoMessageOfAbsentDay(keys, m, ms);
      }
    }
    if TextOrderIsDayOrder(ms) {
      DecreasingLabelsGiveSortedFlatten(ms);
      StableSortUnique(NewestFirst, flat, Sort(NewestFirst, ms));
    }
    if Sorted(NewestFirst, flat) {
      SortedFlattenHasDecreasingLabels(ms);
    }
  }

  lemma {:induction false} NoMessageOfAbsentDay(keys: seq<string>, m: Message, ms: seq<Message>)
    requires forall x :: x in ms ==> DayKey(x) in keys
    requires DayKey(m) !in keys
    ensures Class(NewestFirst, m, ms) == []
  {
    if ms != [] {
      assert ms == [ms[0]] + ms[1..];
      assert ms[0] in ms;
      NoMessageOfAbsentDay(keys, m, ms[1..]);
    }
  }

  lemma {:induction false} InSomeGroup(groups: seq<LabelledGroup>, m: Message)
    requires m in Flatten(groups)
    ensures exists i :: 0 <= i < |groups| && m in groups[i].1
  {
    if m !in groups[0].1 {
      InSomeGroup(groups[1..], m);
      var i :| 0 <= i < |groups[1..]| && m in groups[1..][i].1;
      assert m in groups[i + 1].1;
    }
  }

  lemma {:induction false} FlattenSorted(groups: seq<LabelledGroup>)
    requires forall i :: 0 <= i < |groups| ==> Sorted(NewestFirst, groups[i].1)
    requires forall i, j, a, b :: 0 <= i < j < |groups| && a in groups[i].1 && b in groups[j].1 ==> NewestFirst(a, b)
    ensures Sorted(NewestFirst, Flatten(groups))
  {
    if groups != [] {
      var rest := groups[1..];
      FlattenSorted(rest);
      forall a, b | a in groups[0].1 && b in Flatten(rest) ensures NewestFirst(a, b) {
        InSomeGroup(rest, b);
        var j :| 0 <= j < |rest| && b in rest[j].1;
        assert b in groups[j + 1].1;
      }
      ConcatSorted(groups[0].1, Flatten(rest));
    }
  }

  lemma DecreasingLabelsGiveSortedFlatten(ms: seq<Message>)
    requires StrictlyDecreasing(OrderedGroups(ms))
    ensures Sorted(NewestFirst, Flatten(OrderedGroups(ms)))
  {
    var gs := OrderedGroups(ms);
    forall i | 0 <= i < |gs| ensures Sorted(NewestFirst, gs[i].1) {
      EachMessageUnderItsDay(ms, i);
    }
    forall i, j, a, b | 0 <= i < j < |gs| && a in gs[i].1 && b in gs[j].1 ensures NewestFirst(a, b) {
      EachMessageUnderItsDay(ms, i);
      EachMessageUnderItsDay(ms, j);
      DayStartsApart(DayStart(a), DayStart(b));
    }
    FlattenSorted(gs);
  }

  lemma ConcatSorted(a: seq<Message>, b: seq<Message>)
    requires Sorted(NewestFirst, a) && Sorted(NewestFirst, b)
    requires forall x, y :: x in a && y in b ==> NewestFirst(x, y)
    ensures Sorted(NewestFirst, a + b)
  {
  }

  lemma DayStartsApart(later: nat, earlier: nat)
    requires later % MS_PER_DAY == 0 && earlier % MS_PER_DAY == 0 && earlier < later
    ensures earlier + MS_PER_DAY <= later
  {
  }

  lemma {:induction false} FlattenSplit(groups: seq<LabelledGroup>, i: nat)
    requires i < |groups|
    ensures Flatten(groups) == Flatten(groups[..i]) + groups[i].1 + Flatten(groups[i + 1..])
  {
    if i > 0 {
      FlattenSplit(groups[1..], i - 1);
      assert groups[1..][..i - 1] == groups[..i][1..] && groups[1..][i..] == groups[i + 1..];
    }
  }

  lemma SortedFlattenHasDecreasingLabels(ms: seq<Message>)
    requires Sorted(NewestFirst, Flatten(OrderedGroups(ms)))
    ensures StrictlyDecreasing(OrderedGroups(ms))
  {
    var gs := OrderedGroups(ms);
    var keys := SortedKeys(ms);
    forall i, j | 0 <= i < j < |gs| ensures gs[i].0 > gs[j].0 {
      assert gs[i].0 == FromText(keys[i]) && gs[j].0 == FromText(keys[j]);
      assert keys[i] != keys[j];
      EachMessageUnderItsDay(ms, i);
      EachMessageUnderItsDay(ms, j);
      HeadsInOrder(gs, i, j);
      DayStartMonotone(gs[i].1[0], gs[j].1[0]);
    }
  }

  lemma DayStartMonotone(a: Message, b: Message)
    requires NewestFirst(a, b)
    ensures DayStart(a) >= DayStart(b)
  {
    if DayStart(a) < DayStart(b) {
      DayStartsApart(DayStart(b), DayStart(a));
    }
  }

  lemma HeadsInOrder(gs: seq<LabelledGroup>, i: nat, j: nat)
    requires i < j < |gs| && gs[i].1 != [] && gs[j].1 != []
    requires Sorted(NewestFirst, Flatten(gs))
    ensures NewestFirst(gs[i].1[0], gs[j].1[0])
  {
    FlattenSplit(gs, i);
    var after := gs[i + 1..];
    FlattenSplit(after, j - i - 1);
    assert after[j - i - 1] == gs[j];
    var at := |Flatten(gs[..i])|;
    var bt := at + |gs[i].1| + |Flatten(after[..j - i - 1])|;
    assert Flatten(gs)[at] == gs[i].1[0] && Flatten(gs)[bt] == gs[j].1[0];
  }

  const SEPTEMBER_10_2001: nat := 1_000_080_000_000

  /** From 10 September 2001 until 2286 every day stamp has 13 digits, so the page is sorted throughout. */
  lemma ModernPagesAreSorted(ms: seq<Message>)
    requires forall m :: m in ms ==> SEPTEMBER_10_2001 <= m.created < 10_000_000_000_000
    ensures Flatten(OrderedGroups(ms)) == Sort(NewestFirst, ms)
    ensures StrictlyDecreasing(OrderedGroups(ms))
  {
    forall m | m in ms ensures |DayKey(m)| == 13 {
      ThirteenDigits(m);
    }
    SameDigitCountSuffices(ms);
    GroupsAreTheStableSort(ms);
    LabelsDecreaseIff(ms);
  }

  lemma ThirteenDigits(m: Message)
    requires SEPTEMBER_10_2001 <= m.created < 10_000_000_000_000
    ensures |DayKey(m)| == 13
  {
    assert Pow10(4) == 10_000;
    assert Pow10(8) == 100_000_000;
    assert Pow10(12) == 1_000_000_000_000;
    assert Pow10(13) == 10_000_000_000_000;
    DayStartMonotone(m, Message(SEPTEMBER_10_2001, 0));
    TextLength(DayStart(m), 13);
  }

  /** 11 January 1970 is listed as more recent than 13 January 1970: 9 digits against 10. */
  lemma DigitCountMatters(early: Message, late: Message)
    requires early.created == 864_000_000 && late.created == 1_036_800_000
    ensures !TextOrderIsDayOrder([early, late])
    ensures Flatten(OrderedGroups([early, late])) != Sort(NewestFirst, [early, late])
  {
    var ms := [early, late];
    assert early in ms && late in ms;
    assert DayStart(early) == 864_000_000 && DayStart(late) == 1_036_800_000;
    assert Pow10(8) == 100_000_000 by {
      assert Pow10(4) == 10_000;
    }
    assert Pow10(9) == 1_000_000_000 && Pow10(10) == 10_000_000_000;
    TextLength(DayStart(early), 9);
    TextLength(DayStart(late), 10);
    assert Strip(DayStart(late), 1) == Strip(103_680_000, 0) == 103_680_000;
    GroupsAreTheStableSort(ms);
  }

  lemma {:induction false} TextLength(n: nat, digits: nat)
    requires digits > 0 && (digits == 1 || Pow10(digits - 1) <= n) && n < Pow10(digits)
    ensures |ToText(n)| == digits
    decreases digits
  {
    if digits > 1 {
      assert Pow10(digits) == 10 * Pow10(digits - 1);
      if digits == 2 {
        assert Pow10(1) == 10 && Pow10(0) == 1;
      } else {
        assert Pow10(digits - 1) == 10 * Pow10(digits - 2);
      }
      TextLength(n / 10, digits - 1);
    } else {
      assert Pow10(1) == 10 * Pow10(0);
    }
  }
}
