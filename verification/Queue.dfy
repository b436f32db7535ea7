/**
 The overlapping pages of the transaction queue (src/routes/transactions/transactions.service.ts).
 The upstream service answers a window of the queue, with a next link if and only if items remain.
 */
module Queue {
  import opened Prelude

  datatype PaginationData = PaginationData(limit: int, offset: int)

  /** `next` is the presence of the next link. */
  datatype Page<T> = Page(results: seq<T>, next: bool)

  function GetAdjustedPaginationForQueue(p: PaginationData): PaginationData {
    if p.limit == 0 || p.offset == 0 then p
    else PaginationData(p.limit + 2, p.offset - 1)
  }

  function Upstream<T>(queue: seq<T>, p: PaginationData): Page<T>
    requires p.limit >= 0 && p.offset >= 0
  {
    if p.offset >= |queue| then Page([], false)
    else if p.offset + p.limit >= |queue| then Page(queue[p.offset..], false)
    else Page(queue[p.offset..p.offset + p.limit], true)
  }

  function AdjustTransactionsPage<T>(page: Page<T>): Page<T> {
    if page.next && page.results != [] then page.(results := page.results[..|page.results| - 1]) else page
  }

  function GetNextPageFirst<T>(page: Page<T>): Option<T> {
    if page.next && page.results != [] then Some(page.results[|page.results| - 1]) else None
  }

  function GetPreviousPageLast<T>(page: Page<T>, p: PaginationData): Option<T> {
    if p.offset != 0 && page.results != [] then Some(page.results[0]) else None
  }

  /** What the mapper is handed for one request. */
  datatype Handed<T> = Handed(items: seq<T>, previousPageLast: Option<T>, nextPageFirst: Option<T>)

  function GetTransactionQueue<T>(queue: seq<T>, p: PaginationData): Handed<T>
    requires p.limit >= 1 && p.offset >= 0
  {
    var page := Upstream(queue, GetAdjustedPaginationForQueue(p));
    Handed(AdjustTransactionsPage(page).results, GetPreviousPageLast(page, p), GetNextPageFirst(page))
  }

  // ---- one page at any offset ----

  /** The first index handed on the page at an offset. */
  function From(offset: nat): nat {
    if offset == 0 then 0 else offset - 1
  }

  /** One past the last index handed on the page at an offset. */
  function To(count: nat, L: nat, offset: nat): nat {
    if offset == 0 then if 0 < L < count then L - 1 else count
    else if offset + L + 1 < count then offset + L else count
  }

  /**
   * The page hands the mapper exactly the queue from `From` to `To`; its next-page item is the
   * first one not shown, its previous-page item the one before its offset.
   */
  lemma PageContents<T>(queue: seq<T>, L: nat, offset: nat)
    requires L >= 1 && (offset < |queue| || offset == 0)
    ensures From(offset) <= To(|queue|, L, offset) <= |queue|
    ensures var handed := GetTransactionQueue(queue, PaginationData(L, offset));
            var to := To(|queue|, L, offset);
            && handed.items == queue[From(offset)..to]
            && handed.nextPageFirst == (if to < |queue| then Some(queue[to]) else None)
            && handed.previousPageLast == (if offset > 0 then Some(queue[offset - 1]) else None)
  {
    var p := GetAdjustedPaginationForQueue(PaginationData(L, offset));
    var end := p.offset + p.limit;
    if end < |queue| {
      assert queue[p.offset..end][..p.limit - 1] == queue[p.offset..end - 1];
    }
  }

  // ---- walking the queue at offsets 0, L, 2L, ... ----

  /** The offset of page `k` of a walk with page size `L`. */
  function Offset(L: nat, k: nat): nat {
    if k == 0 then 0 else Offset(L, k - 1) + L
  }

  /** A walk asks for page `k` while its offset is inside the queue. */
  predicate IsPage(count: nat, L: nat, k: nat) {
    Offset(L, k) < count
  }

  lemma {:induction false} OffsetIsMultiple(L: nat, k: nat)
    ensures Offset(L, k) == k * L
  {
    if k > 0 {
      OffsetIsMultiple(L, k - 1);
      assert k * L == (k - 1) * L + L;
    }
  }

  /** The pages cover the queue from its start to its end without a gap. */
  lemma PagesJoin(count: nat, L: nat, k: nat)
    requires L >= 1 && IsPage(count, L, k)
    ensures From(Offset(L, 0)) == 0
    ensures var here, after := Offset(L, k), Offset(L, k + 1);
            if IsPage(count, L, k + 1)
            then From(here) <= From(after) <= To(count, L, here) <= To(count, L, after)
            else To(count, L, here) == count
  {
    assert Offset(L, k + 1) == Offset(L, k) + L;
  }

  lemma {:induction false} OffsetsGrow(L: nat, a: nat, b: nat)
    requires a <= b
    ensures Offset(L, a) <= Offset(L, b)
    ensures L >= 1 ==> b <= Offset(L, b)
    decreases b
  {
    if b > 0 {
      OffsetsGrow(L, if a < b then a else b - 1, b - 1);
    }
  }

  lemma LastPageEndsTheQueue(count: nat, L: nat, k: nat)
    requires L >= 1 && IsPage(count, L, k) && !IsPage(count, L, k + 1)
    ensures To(count, L, Offset(L, k)) == count
  {
    PagesJoin(count, L, k);
  }

  /** Pages two apart share nothing. */
  lemma PagesApart(count: nat, L: nat, j: nat, k: nat)
    requires L >= 1 && j + 2 <= k && IsPage(count, L, k)
    ensures To(count, L, Offset(L, j)) <= From(Offset(L, k))
  {
    OffsetsGrow(L, j + 2, k);
    assert Offset(L, j + 2) == Offset(L, j + 1) + L == Offset(L, j) + L + L;
  }

  ghost predicate ShownOn(count: nat, L: nat, k: nat, i: nat) {
    IsPage(count, L, k) && From(Offset(L, k)) <= i < To(count, L, Offset(L, k))
  }

  lemma {:induction false} ShownSomewhere(count: nat, L: nat, i: nat, k: nat)
    requires L >= 1 && i < count && IsPage(count, L, k) && From(Offset(L, k)) <= i
    ensures exists page :: page >= k && ShownOn(count, L, page, i)
    decreases count - k
  {
    if i < To(count, L, Offset(L, k)) {
      assert ShownOn(count, L, k, i);
    } else {
      PagesJoin(count, L, k);
      OffsetsGrow(L, k + 1, k + 1);
      ShownSomewhere(count, L, i, k + 1);
    }
  }

  /** Every index is handed to the mapper on at least one page and at most two, then consecutive ones. */
  lemma EveryItemOnOneOrTwoPages(count: nat, L: nat, i: nat)
    requires L >= 1 && i < count
    ensures exists page :: ShownOn(count, L, page, i)
    ensures forall j, k :: ShownOn(count, L, j, i) && ShownOn(count, L, k, i) && j < k ==> k == j + 1
  {
    ShownSomewhere(count, L, i, 0);
    forall j: nat, k: nat | ShownOn(count, L, j, i) && ShownOn(count, L, k, i) && j < k ensures k == j + 1 {
      if j + 2 <= k {
        PagesApart(count, L, j, k);
      }
    }
  }

  /** The items of page `k` of the walk. */
  function PageItems<T>(queue: seq<T>, L: nat, k: nat): seq<T>
    requires L >= 1
  {
    GetTransactionQueue(queue, PaginationData(L, Offset(L, k))).items
  }

  /** The pages a walk is handed, one after the other. */
  ghost predicate Walked<T>(queue: seq<T>, L: nat, pages: seq<seq<T>>)
    requires L >= 1
  {
    forall k :: 0 <= k < |pages| ==> pages[k] == PageItems(queue, L, k)
  }

  /** `items` is the part of the queue page `k` covers. */
  ghost predicate Covers<T>(queue: seq<T>, L: nat, k: nat, items: seq<T>) {
    var f, t := From(Offset(L, k)), To(|queue|, L, Offset(L, k));
    f <= t <= |queue| && items == queue[f..t]
  }

  /** What a walk reads: each page after the first drops what the page before has shown. */
  function Read<T>(count: nat, L: nat, pages: seq<seq<T>>): seq<T> {
    if pages == [] then []
    else
      var k := |pages| - 1;
      if k == 0 then pages[0]
      else Read(count, L, pages[..k]) + Drop(pages[k], To(count, L, Offset(L, k - 1)) - From(Offset(L, k)))
  }

  function Drop<T>(items: seq<T>, n: int): seq<T> {
    if 0 <= n <= |items| then items[n..] else []
  }

  lemma SlicesJoin<T>(queue: seq<T>, f: nat, u: nat, t: nat)
    requires f <= u <= t <= |queue|
    ensures queue[..u] + Drop(queue[f..t], u - f) == queue[..t]
  {
    assert queue[f..t][u - f..] == queue[u..t];
  }

  lemma {:induction false} SlicesReadInOrder<T>(queue: seq<T>, L: nat, pages: seq<seq<T>>)
    requires L >= 1 && pages != [] && IsPage(|queue|, L, |pages| - 1)
    requires forall k :: 0 <= k < |pages| ==> Covers(queue, L, k, pages[k])
    ensures To(|queue|, L, Offset(L, |pages| - 1)) <= |queue|
    ensures Read(|queue|, L, pages) == queue[..To(|queue|, L, Offset(L, |pages| - 1))]
  {
    var k := |pages| - 1;
    assert Covers(queue, L, k, pages[k]);
    if k > 0 {
      assert IsPage(|queue|, L, k - 1) by { OffsetsGrow(L, k - 1, k); }
      SlicesReadInOrder(queue, L, pages[..k]);
      ReadStep(queue, L, k, pages[k], Read(|queue|, L, pages[..k]));
    }
  }

  lemma ReadStep<T>(queue: seq<T>, L: nat, k: nat, items: seq<T>, shown: seq<T>)
    requires L >= 1 && k >= 1 && IsPage(|queue|, L, k) && IsPage(|queue|, L, k - 1)
    requires Covers(queue, L, k, items)
    requires To(|queue|, L, Offset(L, k - 1)) <= |queue|
    requires shown == queue[..To(|queue|, L, Offset(L, k - 1))]
    ensures To(|queue|, L, Offset(L, k)) <= |queue|
    ensures shown + Drop(items, To(|queue|, L, Offset(L, k - 1)) - From(Offset(L, k))) == queue[..To(|queue|, L, Offset(L, k))]
  {
    PagesJoin(|queue|, L, k - 1);
    SlicesJoin(queue, From(Offset(L, k)), To(|queue|, L, Offset(L, k - 1)), To(|queue|, L, Offset(L, k)));
  }

  lemma PageCovers<T>(queue: seq<T>, L: nat, k: nat)
    requires L >= 1 && IsPage(|queue|, L, k)
    ensures Covers(queue, L, k, PageItems(queue, L, k))
  {
    PageContents(queue, L, Offset(L, k));
  }

  lemma PagesCover<T>(queue: seq<T>, L: nat, pages: seq<seq<T>>)
    requires L >= 1 && pages != [] && IsPage(|queue|, L, |pages| - 1) && Walked(queue, L, pages)
    ensures forall k :: 0 <= k < |pages| ==> Covers(queue, L, k, pages[k])
  {
    forall k | 0 <= k < |pages| ensures Covers(queue, L, k, pages[k]) {
      OffsetsGrow(L, k, |pages| - 1);
      PageCovers(queue, L, k);
    }
  }

  /**
   * In order: a walk reads the queue up to where its last page ends, which is the end of the
   * queue once no page is left (`LastPageEndsTheQueue`).
   */
  lemma WalkReadsTheQueue<T>(queue: seq<T>, L: nat, pages: seq<seq<T>>)
    requires L >= 1 && pages != [] && IsPage(|queue|, L, |pages| - 1) && Walked(queue, L, pages)
    ensures To(|queue|, L, Offset(L, |pages| - 1)) <= |queue|
    ensures Read(|queue|, L, pages) == queue[..To(|queue|, L, Offset(L, |pages| - 1))]
  {
    PagesCover(queue, L, pages);
    SlicesReadInOrder(queue, L, pages);
  }

  /** The first page is not widened: when another page follows, it hands over one item fewer than asked. */
  lemma FirstPageIsShort<T>(queue: seq<T>, L: nat)
    requires 1 <= L < |queue|
    ensures |GetTransactionQueue(queue, PaginationData(L, 0)).items| == L - 1
  {
    PageContents(queue, L, 0);
  }
}
