/**
 The bounded crawl over the chains of the Config Service (src/domain/chains/chains.repository.ts) and the
 lenient page schema that drops invalid items (src/domain/entities/schemas/page.schema.factory.ts).
 `valid` is the chain schema, an unknown predicate of an item.
 */
module Chains {
  import opened Prelude

  const MAX_LIMIT: nat := 40

  /** `next` is the offset in the next link, if there is one. */
  datatype Page<T> = Page(results: seq<T>, next: Option<nat>)

  function Keep<T>(valid: T -> bool, items: seq<T>): seq<T> {
    if items == [] then []
    else Keep(valid, items[..|items| - 1]) + (if valid(items[|items| - 1]) then [items[|items| - 1]] else [])
  }

  lemma {:induction false} KeepConcat<T>(valid: T -> bool, a: seq<T>, b: seq<T>)
    ensures Keep(valid, a + b) == Keep(valid, a) + Keep(valid, b)
    decreases |b|
  {
    if b == [] {
      assert a + b == a;
    } else {
      assert (a + b)[..|a + b| - 1] == a + b[..|b| - 1];
      KeepConcat(valid, a, b[..|b| - 1]);
    }
  }

  /** The positions of the valid items. */
  ghost function Positions<T>(valid: T -> bool, items: seq<T>): seq<nat> {
    if items == [] then []
    else
      var n := |items| - 1;
      Positions(valid, items[..n]) + (if valid(items[n]) then [n] else [])
  }

  /** `kept` is the items at the positions `at`: increasing, and exactly those of the valid items. */
  ghost predicate Selects<T>(valid: T -> bool, items: seq<T>, at: seq<nat>, kept: seq<T>) {
    && |kept| == |at|
    && (forall i, j :: 0 <= i < j < |at| ==> at[i] < at[j])
    && (forall i :: 0 <= i < |at| ==> at[i] < |items| && kept[i] == items[at[i]])
    && (forall k: nat :: k in at <==> k < |items| && valid(items[k]))
  }

  /** Filtering reads the items at exactly the valid positions, in their order. */
  lemma {:induction false} KeepIsOrderedSelection<T>(valid: T -> bool, items: seq<T>)
    ensures Selects(valid, items, Positions(valid, items), Keep(valid, items))
    decreases |items|
  {
    if items != [] {
      var n := |items| - 1;
      KeepIsOrderedSelection(valid, items[..n]);
      SelectsOneMore(valid, items[..n], items[n], Positions(valid, items[..n]), Keep(valid, items[..n]));
      assert items == items[..n] + [items[n]];
    }
  }

  lemma SelectsOneMore<T>(valid: T -> bool, items: seq<T>, last: T, at: seq<nat>, kept: seq<T>)
    requires Selects(valid, items, at, kept)
    ensures Selects(valid, items + [last], at + (if valid(last) then [|items|] else []), kept + (if valid(last) then [last] else []))
  {
    assert forall i :: 0 <= i < |at| ==> at[i] in at;
  }

  lemma KeptMembers<T>(valid: T -> bool, items: seq<T>)
    ensures forall x :: x in Keep(valid, items) <==> x in items && valid(x)
  {
    KeepIsOrderedSelection(valid, items);
    var at, kept := Positions(valid, items), Keep(valid, items);
    forall x | x in items && valid(x) ensures x in kept {
      var k: nat :| k < |items| && items[k] == x;
      assert k in at;
      var i :| 0 <= i < |at| && at[i] == k;
      assert kept[i] == x;
    }
    forall x | x in kept ensures x in items && valid(x) {
      var i :| 0 <= i < |kept| && kept[i] == x;
      assert at[i] in at;
    }
  }

  /** The Config Service: one page of the source list, with a next link if and only if items remain. */
  function Serve<T>(source: seq<T>, limit: nat, offset: nat): Page<T> {
    Page(Window(source, limit, offset), if offset + limit < |source| then Some(offset + limit) else None)
  }

  /** The part of the source from `offset` on, at most `limit` long. */
  function Window<T>(source: seq<T>, limit: nat, offset: nat): (w: seq<T>)
    ensures |w| <= limit
    ensures forall i :: 0 <= i < |w| ==> offset + i < |source| && w[i] == source[offset + i]
    ensures |w| == limit || offset + |w| >= |source|
  {
    if offset + limit < |source| then source[offset..offset + limit]
    else if offset <= |source| then source[offset..]
    else []
  }

  lemma WindowMembers<T>(source: seq<T>, limit: nat, offset: nat)
    ensures forall c :: c in Window(source, limit, offset) <==>
              exists i :: offset <= i < offset + limit && i < |source| && source[i] == c
  {
    var w := Window(source, limit, offset);
    forall c | exists i :: offset <= i < offset + limit && i < |source| && source[i] == c ensures c in w {
      var i :| offset <= i < offset + limit && i < |source| && source[i] == c;
      assert w[i - offset] == c;
    }
  }

  /** `buildLenientPageSchema`: the same page with only its valid results. */
  function LenientPage<T>(valid: T -> bool, page: Page<T>): Page<T> {
    page.(results := Keep(valid, page.results))
  }

  function Bound(count: nat, maxSequentialPages: nat): nat {
    if count <= MAX_LIMIT * maxSequentialPages then count else MAX_LIMIT * maxSequentialPages
  }

  class ChainsRepository<T> {
    const maxSequentialPages: nat
    const valid: T -> bool

    constructor (maxSequentialPages: nat, valid: T -> bool)
      ensures this.maxSequentialPages == maxSequentialPages && this.valid == valid
    {
      this.maxSequentialPages := maxSequentialPages;
      this.valid := valid;
    }

    /** The valid chains of the window of the source, in order, and a next link if and only if
        the source goes on after it, however many of the window were dropped. */
    method GetChains(source: seq<T>, limit: nat, offset: nat) returns (page: Page<T>)
      ensures page.results == Keep(valid, Window(source, limit, offset))
      ensures forall c :: c in page.results <==>
                valid(c) && exists i :: offset <= i < offset + limit && i < |source| && source[i] == c
      ensures page.next == if offset + limit < |source| then Some(offset + limit) else None
    {
      page := LenientPage(valid, Serve(source, limit, offset));
      KeptMembers(valid, Window(source, limit, offset));
      WindowMembers(source, limit, offset);
    }

    /**
     * Exactly the valid chains among the first `40 * maxSequentialPages`, in order, each as often as
     * the source has it. Truncation is reported exactly when the source is longer than that
     * (and a page was asked for at all).
     */
    method GetAllChains(source: seq<T>) returns (chains: seq<T>, truncationReported: bool)
      ensures chains == Keep(valid, source[..Bound(|source|, maxSequentialPages)])
      ensures truncationReported <==> maxSequentialPages >= 1 && |source| > MAX_LIMIT * maxSequentialPages
    {
      chains := [];
      var offset: nat := 0;
      var next: Option<nat> := None;
      assert source[..0] == [];
      for i := 0 to maxSequentialPages
        invariant offset == MAX_LIMIT * i && offset <= |source|
        invariant i > 0 ==> next == Some(offset) && offset < |source|
        invariant i == 0 ==> next.None?
        invariant chains == Keep(valid, source[..offset])
      {
        var result := GetChains(source, MAX_LIMIT, offset);
        next := result.next;
        var end := Bound(|source|, i + 1);
        assert source[..end] == source[..offset] + Window(source, MAX_LIMIT, offset);
        KeepConcat(valid, source[..offset], Window(source, MAX_LIMIT, offset));
        chains := chains + result.results;
        if next.None? {
          assert end == |source| && source[..end] == source;
          assert Bound(|source|, maxSequentialPages) == |source|;
          break;
        }
        offset := next.value;
      }
      truncationReported := next.Some?;
    }
  }

  /** With no page allowed, a source that is not empty is dropped in silence. */
  method NoPagesNoReport<T>(repository: ChainsRepository<T>, source: seq<T>) returns (chains: seq<T>, truncationReported: bool)
    requires repository.maxSequentialPages == 0 && source != []
    ensures chains == [] && !truncationReported
  {
    chains, truncationReported := repository.GetAllChains(source);
  }
}
