/** The page arithmetic of `display_entries` in main.py: how many pages a list
    of entries takes and which entries each page shows. */
module Paging {
  import opened Results

  /** The exception `display_entries` raises when asked for pages of size 0. */
  datatype PagingError = ZeroDivision

  function Min(a: int, b: int): int {
    if a <= b then a else b
  }

  /** First index shown on page `page` (0-based): `page * page_size`. */
  function PageStart(page: nat, pageSize: nat): nat {
    page * pageSize
  }

  /** One past the last index shown on page `page`: `min(start + page_size, total)`. */
  function PageEnd(page: nat, pageSize: nat, total: nat): nat {
    Min(PageStart(page, pageSize) + pageSize, total)
  }

  /** `(total + page_size - 1) // page_size`: the number of pages, the least
      count whose pages together hold every entry. */
  function PageCount(total: nat, pageSize: nat): (count: nat)
    requires pageSize > 0
    ensures total <= count * pageSize
    ensures count == 0 || (count - 1) * pageSize < total
  {
    var q := (total + pageSize - 1) / pageSize;
    assert q * pageSize + (total + pageSize - 1) % pageSize == total + pageSize - 1;
    q
  }

  /** There are no pages exactly when there are no entries. */
  lemma NoPagesIffEmpty(total: nat, pageSize: nat)
    requires pageSize > 0
    ensures PageCount(total, pageSize) == 0 <==> total == 0
  {
  }

  lemma MulMono(a: nat, b: nat, c: nat)
    requires a <= b
    ensures a * c <= b * c
  {
  }

  /** Every page before the last starts inside the list. */
  lemma PageStartsInside(total: nat, pageSize: nat, page: nat)
    requires pageSize > 0 && page < PageCount(total, pageSize)
    ensures PageStart(page, pageSize) < total
  {
    MulMono(page, PageCount(total, pageSize) - 1, pageSize);
  }

  /** The entries of page `page`. */
  function Page<T>(items: seq<T>, pageSize: nat, page: nat): seq<T>
    requires pageSize > 0 && page < PageCount(|items|, pageSize)
  {
    PageStartsInside(|items|, pageSize, page);
    items[PageStart(page, pageSize)..PageEnd(page, pageSize, |items|)]
  }

  /** All pages, in order. */
  function Pages<T>(items: seq<T>, pageSize: nat): seq<seq<T>>
    requires pageSize > 0
  {
    var count := PageCount(|items|, pageSize);
    seq(count, p requires 0 <= p < count => Page(items, pageSize, p))
  }

  /** The pages one after another. */
  function Flatten<T>(pages: seq<seq<T>>): seq<T>
  {
    if pages == [] then [] else Flatten(pages[..|pages| - 1]) + pages[|pages| - 1]
  }

  /** Each page starts `page_size` indices after the one before. */
  lemma PageStartNext(page: nat, pageSize: nat)
    ensures PageStart(page + 1, pageSize) == PageStart(page, pageSize) + pageSize
  {
  }

  /** The first `k` pages together show the entries before `min(k * page_size, total)`. */
  lemma {:induction false} FlattenFirstPages<T>(items: seq<T>, pageSize: nat, k: nat)
    requires pageSize > 0 && k <= PageCount(|items|, pageSize)
    ensures Flatten(Pages(items, pageSize)[..k]) == items[..Min(PageStart(k, pageSize), |items|)]
  {
    if k > 0 {
      var pages := Pages(items, pageSize);
      var n := |items|;
      var start := PageStart(k - 1, pageSize);
      FlattenFirstPages(items, pageSize, k - 1);
      PageStartsInside(n, pageSize, k - 1);
      PageStartNext(k - 1, pageSize);
      var end := PageEnd(k - 1, pageSize, n);
      assert end == Min(PageStart(k, pageSize), n);
      assert pages[..k][..k - 1] == pages[..k - 1];
      assert pages[..k][k - 1] == items[start..end];
      assert Flatten(pages[..k]) == items[..start] + items[start..end];
      assert items[..end] == items[..start] + items[start..end];
    }
  }

  /** What `display_entries(phonebook, page_size)` shows: the pages in order,
      or the `ZeroDivisionError` that a page size of 0 raises. Each page holds
      between one and `page_size` entries, page `p` holds the entries from
      `p * page_size` up to `min(p * page_size + page_size, total)`, there are
      as many pages as the ceiling of total over page size, and read one after
      another the pages show every entry once, in order. */
  function Paginate<T>(items: seq<T>, pageSize: nat): (r: Result<seq<seq<T>>, PagingError>)
    ensures r.Err? <==> pageSize == 0
    ensures r.Ok? ==> |r.value| == PageCount(|items|, pageSize)
    ensures r.Ok? ==> forall p :: 0 <= p < |r.value| ==> 0 < |r.value[p]| <= pageSize
    ensures r.Ok? ==> forall p :: 0 <= p < |r.value| ==>
                        r.value[p] == items[PageStart(p, pageSize)..PageEnd(p, pageSize, |items|)]
    ensures r.Ok? ==> Flatten(r.value) == items
  {
    if pageSize == 0 then
      Err(ZeroDivision)
    else
      PagesShape(items, pageSize);
      Ok(Pages(items, pageSize))
  }

  /** The pages are non-empty and cover the list in order. */
  lemma PagesShape<T>(items: seq<T>, pageSize: nat)
    requires pageSize > 0
    ensures forall p :: 0 <= p < |Pages(items, pageSize)| ==> 0 < |Pages(items, pageSize)[p]| <= pageSize
    ensures Flatten(Pages(items, pageSize)) == items
  {
    var pages := Pages(items, pageSize);
    FlattenFirstPages(items, pageSize, |pages|);
    assert pages[..|pages|] == pages;
    forall p | 0 <= p < |pages|
      ensures 0 < |pages[p]| <= pageSize
    {
      PageStartsInside(|items|, pageSize, p);
    }
  }

  /** `i` lies in the block of `page_size` indices starting at `(i / page_size) * page_size`. */
  lemma DivBounds(i: nat, pageSize: nat)
    requires pageSize > 0
    ensures PageStart(i / pageSize, pageSize) <= i < PageStart(i / pageSize, pageSize) + pageSize
  {
    assert (i / pageSize) * pageSize + i % pageSize == i;
  }

  /** Two blocks of `page_size` indices that share an index are the same block. */
  lemma SameBlock(p: nat, q: nat, pageSize: nat, i: nat)
    requires pageSize > 0
    requires PageStart(p, pageSize) <= i < PageStart(p, pageSize) + pageSize
    requires PageStart(q, pageSize) <= i < PageStart(q, pageSize) + pageSize
    ensures p == q
  {
    if p < q {
      MulMono(p + 1, q, pageSize);
    } else if p > q {
      MulMono(q + 1, p, pageSize);
    }
  }

  /** The pages partition the indices: index `i` is shown on page `i / page_size`
      and on no other page. */
  lemma PageOfIndex(total: nat, pageSize: nat, i: nat)
    requires pageSize > 0 && i < total
    ensures i / pageSize < PageCount(total, pageSize)
    ensures PageStart(i / pageSize, pageSize) <= i < PageEnd(i / pageSize, pageSize, total)
    ensures forall p: nat :: PageStart(p, pageSize) <= i < PageEnd(p, pageSize, total) ==> p == i / pageSize
  {
    var q := i / pageSize;
    DivBounds(i, pageSize);
    var count := PageCount(total, pageSize);
    assert q < count by {
      if q >= count {
        MulMono(count, q, pageSize);
      }
    }
    forall p: nat | PageStart(p, pageSize) <= i < PageEnd(p, pageSize, total)
      ensures p == q
    {
      SameBlock(p, q, pageSize, i);
    }
  }

  /** A page as large as the list makes one page. */
  lemma SinglePage(n: nat)
    requires n > 0
    ensures PageCount(n, n) == 1
  {
    var count := PageCount(n, n);
    if count >= 2 {
      MulMono(1, count - 1, n);
    }
  }

  /** Listing with the page size equal to the number of entries, as
      `edit_entry` does, shows every entry on a single page. */
  lemma OnePage<T>(items: seq<T>)
    requires items != []
    ensures Paginate(items, |items|) == Ok([items])
  {
    var n := |items|;
    SinglePage(n);
    assert PageStart(0, n) == 0 && PageEnd(0, n, n) == n;
    assert Pages(items, n) == [items] by {
      assert Page(items, n, 0) == items;
    }
  }
}
