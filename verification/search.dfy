/** `search_entry` of main.py: a case-insensitive, exact-equality keyword
    filter over all six fields that keeps the phonebook's order. */
module Search {
  import opened Text
  import opened Entries

  /** The fields of an entry, lowered: `map(str.lower, entry.values())`. */
  function LoweredValues(e: Entry): seq<string> {
    seq(|Values(e)|, i requires 0 <= i < |Values(e)| => Lower(Values(e)[i]))
  }

  /** `keyword.lower() in map(str.lower, entry.values())`: some field equals the
      keyword once both are lowered; equality of whole fields, not a substring test. */
  predicate Matches(e: Entry, keyword: string) {
    Lower(keyword) in LoweredValues(e)
  }

  /** The entries that match, in phonebook order. */
  function Filter(book: seq<Entry>, keyword: string): seq<Entry>
  {
    if book == [] then []
    else (if Matches(book[0], keyword) then [book[0]] else []) + Filter(book[1..], keyword)
  }

  /** Filtering a concatenation filters each part. */
  lemma {:induction false} FilterAppend(a: seq<Entry>, b: seq<Entry>, keyword: string)
    ensures Filter(a + b, keyword) == Filter(a, keyword) + Filter(b, keyword)
    decreases |a|
  {
    if a != [] {
      var ab := a + b;
      assert ab[0] == a[0] && ab[1..] == a[1..] + b;
      FilterAppend(a[1..], b, keyword);
      var head := if Matches(a[0], keyword) then [a[0]] else [];
      assert Filter(ab, keyword) == head + Filter(a[1..] + b, keyword);
      assert Filter(a, keyword) == head + Filter(a[1..], keyword);
      assert head + (Filter(a[1..], keyword) + Filter(b, keyword))
          == (head + Filter(a[1..], keyword)) + Filter(b, keyword);
    } else {
      assert a + b == b;
    }
  }

  /** `search_entry`: walk the phonebook once and collect every entry that
      matches the keyword, in order. */
  method SearchEntry(book: seq<Entry>, keyword: string) returns (results: seq<Entry>)
    ensures results == Filter(book, keyword)
    ensures |results| <= |book|
    ensures forall e :: e in results ==> e in book && Matches(e, keyword)
  {
    var key := Lower(keyword);
    results := [];
    for i := 0 to |book|
      invariant results == Filter(book[..i], keyword)
    {
      var e := book[i];
      FilterAppend(book[..i], [e], keyword);
      assert book[..i + 1] == book[..i] + [e];
      if key in LoweredValues(e) {
        results := results + [e];
      }
    }
    assert book[..|book|] == book;
    FilterIsSubsequence(book, keyword);
    SubsequenceLength(results, book);
    FilterSound(book, keyword);
  }

  /** `a` is `b` with some elements left out, the rest in their order. */
  predicate IsSubsequence<T(==)>(a: seq<T>, b: seq<T>)
    decreases |b|
  {
    || a == []
    || (b != [] && ((a[0] == b[0] && IsSubsequence(a[1..], b[1..])) || IsSubsequence(a, b[1..])))
  }

  lemma {:induction false} SubsequenceLength<T>(a: seq<T>, b: seq<T>)
    requires IsSubsequence(a, b)
    ensures |a| <= |b|
    ensures forall x :: x in a ==> x in b
    decreases |b|
  {
    if a != [] {
      if a[0] == b[0] && IsSubsequence(a[1..], b[1..]) {
        SubsequenceLength(a[1..], b[1..]);
        assert a == [a[0]] + a[1..];
      } else {
        SubsequenceLength(a, b[1..]);
      }
    }
  }

  /** The search result keeps the order of the phonebook: it is a subsequence of it. */
  lemma {:induction false} FilterIsSubsequence(book: seq<Entry>, keyword: string)
    ensures IsSubsequence(Filter(book, keyword), book)
    decreases |book|
  {
    if book != [] {
      FilterIsSubsequence(book[1..], keyword);
      var rest := Filter(book[1..], keyword);
      var r := Filter(book, keyword);
      if Matches(book[0], keyword) {
        assert r == [book[0]] + rest;
        assert r[0] == book[0] && r[1..] == rest;
      } else {
        assert r == rest;
        assert r == [] || IsSubsequence(r, book[1..]);
      }
    }
  }

  /** Every entry in the search result matches the keyword, and each matching
      entry appears in it exactly as often as in the phonebook; entries that do
      not match do not appear at all. */
  lemma {:induction false} FilterCounts(book: seq<Entry>, keyword: string, e: Entry)
    ensures multiset(Filter(book, keyword))[e] == if Matches(e, keyword) then multiset(book)[e] else 0
    decreases |book|
  {
    if book != [] {
      FilterCounts(book[1..], keyword, e);
      assert book == [book[0]] + book[1..];
    }
  }

  /** Every entry in the search result matches the keyword. */
  lemma FilterSound(book: seq<Entry>, keyword: string)
    ensures forall e :: e in Filter(book, keyword) ==> Matches(e, keyword)
  {
    forall e | e in Filter(book, keyword)
      ensures Matches(e, keyword)
    {
      FilterCounts(book, keyword, e);
    }
  }

  /** Case does not matter: searching for the lowered keyword finds the same entries. */
  lemma CaseInsensitive(book: seq<Entry>, keyword: string)
    ensures Filter(book, Lower(keyword)) == Filter(book, keyword)
  {
    LowerIdempotent(keyword);
    assert forall e :: Matches(e, Lower(keyword)) == Matches(e, keyword);
  }

  /** An empty keyword finds exactly the entries that have an empty field. */
  lemma EmptyKeyword(e: Entry)
    ensures Matches(e, "") <==> exists i :: 0 <= i < |Values(e)| && Values(e)[i] == ""
  {
    var lv := LoweredValues(e);
    assert Lower("") == "";
    forall i | 0 <= i < |Values(e)|
      ensures lv[i] == "" <==> Values(e)[i] == ""
    {
      LowerEmpty(Values(e)[i]);
    }
  }
}
