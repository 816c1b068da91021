/** Removing books by title. The source walks the list with a `for` loop and
    calls `list.remove(book)` inside it. Python's list iterator keeps a
    position: it reads the element at that position, advances by one, and
    stops once the position reaches the current length. `list.remove(x)`
    deletes the first element EQUAL to `x`, comparing whole records.
    Together they give these behaviours:
      - the first matching record is always deleted;
      - the record right after a deleted one moves into the slot just read
        and is never examined, so a match directly after a removed match
        survives that step;
      - when a skipped record has an equal copy further on, reaching the copy
        deletes the earlier, skipped one, so the surviving copy can end up in
        a different place (see `RemoveMovesDuplicate`). */
module Removal {
  import opened Books

  /** The position `list.index(x)` reports: the first occurrence of `x`. */
  function IndexOf(books: seq<Book>, x: Book): (k: nat)
    requires x in books
    ensures k < |books| && books[k] == x && x !in books[..k]
  {
    if books[0] == x then 0
    else
      assert books[1..][..IndexOf(books[1..], x)] == books[1..IndexOf(books[1..], x) + 1];
      IndexOf(books[1..], x) + 1
  }

  /** `list.remove(x)` for an `x` the list holds: the list loses one record. */
  function RemoveFirstEqual(books: seq<Book>, x: Book): (r: seq<Book>)
    requires x in books
    ensures |r| == |books| - 1
  {
    var k := IndexOf(books, x);
    books[..k] + books[k + 1..]
  }

  /** What `list.remove(x)` deletes: exactly one copy of `x`, the first one;
      the records before it stay in place and the ones after it move up by
      one. */
  lemma RemoveFirstEqualDeletesFirstCopy(books: seq<Book>, x: Book)
    requires x in books
    ensures var k := IndexOf(books, x);
      var r := RemoveFirstEqual(books, x);
      && multiset(r) == multiset(books) - multiset{x}
      && r[..k] == books[..k]
      && forall j :: k <= j < |r| ==> r[j] == books[j + 1]
  {
    Splice(books, IndexOf(books, x));
  }

  lemma Splice<T>(s: seq<T>, k: nat)
    requires k < |s|
    ensures var r := s[..k] + s[k + 1..];
      && multiset(r) == multiset(s) - multiset{s[k]}
      && r[..k] == s[..k]
      && forall j :: k <= j < |r| ==> r[j] == s[j + 1]
  {
    var r := s[..k] + s[k + 1..];
    assert s == s[..k] + [s[k]] + s[k + 1..];
    assert multiset(s) == multiset(s[..k]) + multiset{s[k]} + multiset(s[k + 1..]);
    assert r[..k] == s[..k];
  }

  /** The list that results when the loop of `remove_book` runs from iterator
      position `i` over the current list `books`. Each step reads `books[i]`
      and advances; a match is removed with `list.remove`. */
  function RemoveScan(books: seq<Book>, query: string, i: nat): (r: seq<Book>)
    ensures |r| <= |books|
    decreases |books| - i
  {
    if i >= |books| then books
    else if TitleMatches(books[i], query) then RemoveScan(RemoveFirstEqual(books, books[i]), query, i + 1)
    else RemoveScan(books, query, i + 1)
  }

  // ---------------------------------------------------------------------------
  // Only matching records are removed, and non-matching ones keep their order.

  lemma RemoveFirstEqualKeepsUnmatched(books: seq<Book>, x: Book, query: string)
    requires x in books && TitleMatches(x, query)
    ensures Filter(NotTitled(query), RemoveFirstEqual(books, x)) == Filter(NotTitled(query), books)
  {
    var k := IndexOf(books, x);
    assert books == books[..k] + ([x] + books[k + 1..]);
    FilterConcat(NotTitled(query), books[..k], [x] + books[k + 1..]);
    FilterConcat(NotTitled(query), [x], books[k + 1..]);
    FilterConcat(NotTitled(query), books[..k], books[k + 1..]);
  }

  lemma {:induction false} RemoveScanKeepsUnmatched(books: seq<Book>, query: string, i: nat)
    ensures Filter(NotTitled(query), RemoveScan(books, query, i)) == Filter(NotTitled(query), books)
    ensures multiset(RemoveScan(books, query, i)) <= multiset(books)
    decreases |books| - i
  {
    if i < |books| {
      if TitleMatches(books[i], query) {
        RemoveFirstEqualKeepsUnmatched(books, books[i], query);
        RemoveFirstEqualDeletesFirstCopy(books, books[i]);
        RemoveScanKeepsUnmatched(RemoveFirstEqual(books, books[i]), query, i + 1);
      } else {
        RemoveScanKeepsUnmatched(books, query, i + 1);
      }
    }
  }

  /** Removal deletes only records whose title matches: every non-matching
      record is still there, in the same relative order, and nothing new
      appears. */
  lemma RemoveOnlyMatches(books: seq<Book>, query: string)
    ensures Filter(NotTitled(query), RemoveScan(books, query, 0)) == Filter(NotTitled(query), books)
    ensures multiset(RemoveScan(books, query, 0)) <= multiset(books)
    ensures forall b :: b in multiset(books) - multiset(RemoveScan(books, query, 0)) ==> TitleMatches(b, query)
  {
    var r := RemoveScan(books, query, 0);
    RemoveScanKeepsUnmatched(books, query, 0);
    forall b | b in multiset(books) - multiset(r)
      ensures TitleMatches(b, query)
    {
      if !TitleMatches(b, query) {
        assert false;
      }
    }
  }

  // ---------------------------------------------------------------------------
  // Without a match nothing happens.

  lemma {:induction false} RemoveScanNoMatch(books: seq<Book>, query: string, i: nat)
    requires forall j :: i <= j < |books| ==> !TitleMatches(books[j], query)
    ensures RemoveScan(books, query, i) == books
    decreases |books| - i
  {
    if i < |books| {
      RemoveScanNoMatch(books, query, i + 1);
    }
  }

  /** A title that no record matches leaves the collection as it was. */
  lemma RemoveWithoutMatchIsIdentity(books: seq<Book>, query: string)
    requires FirstTitleMatch(books, query).None?
    ensures RemoveScan(books, query, 0) == books
  {
    RemoveScanNoMatch(books, query, 0);
  }

  // ---------------------------------------------------------------------------
  // The records in front of the first match, and the first match itself.

  lemma {:induction false} RemoveScanSkipsUnmatched(books: seq<Book>, query: string, i: nat, j: nat)
    requires i <= j <= |books|
    requires forall m :: i <= m < j ==> !TitleMatches(books[m], query)
    ensures RemoveScan(books, query, i) == RemoveScan(books, query, j)
    decreases j - i
  {
    if i < j {
      RemoveScanSkipsUnmatched(books, query, i + 1, j);
    }
  }

  /** `list.remove(x)` with no copy of `x` among the first `k` records keeps
      those records in place and removes one record after them. */
  lemma RemoveFirstEqualAfter(books: seq<Book>, x: Book, k: nat)
    requires x in books && k <= |books| && x !in books[..k]
    ensures IndexOf(books, x) >= k
    ensures RemoveFirstEqual(books, x)[..k] == books[..k]
    ensures multiset(RemoveFirstEqual(books, x)[k..]) <= multiset(books[k..])
  {
    var p := IndexOf(books, x);
    var next := RemoveFirstEqual(books, x);
    assert p >= k;
    assert next == books[..p] + books[p + 1..];
    assert next[k..] == books[k..p] + books[p + 1..];
    assert books[k..] == books[k..p] + [x] + books[p + 1..];
  }

  /** A prefix that holds no copy of any matching record still to be read is
      never touched: every later `list.remove` finds its target after it. */
  lemma {:induction false} RemoveScanKeepsPrefix(books: seq<Book>, query: string, i: nat, k: nat)
    requires k <= i && k <= |books|
    requires forall j :: i <= j < |books| && TitleMatches(books[j], query) ==> books[j] !in books[..k]
    ensures |RemoveScan(books, query, i)| >= k
    ensures RemoveScan(books, query, i)[..k] == books[..k]
    ensures multiset(RemoveScan(books, query, i)[k..]) <= multiset(books[k..])
    decreases |books| - i
  {
    if i < |books| {
      if TitleMatches(books[i], query) {
        var x := books[i];
        var next := RemoveFirstEqual(books, x);
        RemoveFirstEqualAfter(books, x, k);
        RemoveFirstEqualDeletesFirstCopy(books, x);
        assert IndexOf(books, x) <= i;
        forall j | i + 1 <= j < |next| && TitleMatches(next[j], query)
          ensures next[j] !in next[..k]
        {
          assert next[j] == books[j + 1];
        }
        RemoveScanKeepsPrefix(next, query, i + 1, k);
      } else {
        RemoveScanKeepsPrefix(books, query, i + 1, k);
      }
    }
  }

  /** Reaching the first match removes that very record. */
  lemma FirstMatchStep(books: seq<Book>, query: string, f: nat)
    requires FirstTitleMatch(books, query) == Some(f)
    ensures IndexOf(books, books[f]) == f
    ensures RemoveScan(books, query, 0) == RemoveScan(books[..f] + books[f + 1..], query, f + 1)
  {
    var x := books[f];
    var p := IndexOf(books, x);
    if p < f {
      assert false;
    }
    RemoveScanSkipsUnmatched(books, query, 0, f);
  }

  /** If any record matches, the first match is deleted: every record before it
      stays in place, and what follows holds one copy of it fewer. */
  lemma RemoveDeletesFirstMatch(books: seq<Book>, query: string)
    requires FirstTitleMatch(books, query).Some?
    ensures var f := FirstTitleMatch(books, query).value;
      var r := RemoveScan(books, query, 0);
      && |r| >= f
      && r[..f] == books[..f]
      && multiset(r[f..]) <= multiset(books[f + 1..])
      && |r| < |books|
  {
    var f := FirstTitleMatch(books, query).value;
    var next := books[..f] + books[f + 1..];
    FirstMatchStep(books, query, f);
    forall j | f + 1 <= j < |next| && TitleMatches(next[j], query)
      ensures next[j] !in next[..f]
    {
      assert next[..f] == books[..f];
    }
    RemoveScanKeepsPrefix(next, query, f + 1, f);
    assert next[..f] == books[..f];
    assert next[f..] == books[f + 1..];
  }

  /** A match directly after the first match is skipped: unless an equal copy
      of it comes later, it survives right where the first match stood. */
  lemma RemoveSkipsNextMatch(books: seq<Book>, query: string)
    requires FirstTitleMatch(books, query).Some?
    requires var f := FirstTitleMatch(books, query).value;
      f + 1 < |books| && TitleMatches(books[f + 1], query) && books[f + 1] !in books[f + 2..]
    ensures var f := FirstTitleMatch(books, query).value;
      var r := RemoveScan(books, query, 0);
      |r| > f && r[..f + 1] == books[..f] + [books[f + 1]]
  {
    var f := FirstTitleMatch(books, query).value;
    FirstMatchStep(books, query, f);
    SkipNextAfter(books, query, f);
  }

  lemma SkipNextAfter(books: seq<Book>, query: string, f: nat)
    requires f + 1 < |books|
    requires forall m :: 0 <= m < f ==> !TitleMatches(books[m], query)
    requires TitleMatches(books[f + 1], query) && books[f + 1] !in books[f + 2..]
    ensures var r := RemoveScan(books[..f] + books[f + 1..], query, f + 1);
      |r| > f && r[..f + 1] == books[..f] + [books[f + 1]]
  {
    var next := books[..f] + books[f + 1..];
    assert next[..f + 1] == books[..f] + [books[f + 1]];
    forall j | f + 1 <= j < |next| && TitleMatches(next[j], query)
      ensures next[j] !in next[..f + 1]
    {
      assert next[j] == books[j + 1];
      SkippedMatchNotKept(books, query, f, j);
    }
    RemoveScanKeepsPrefix(next, query, f + 1, f + 1);
  }

  lemma SkippedMatchNotKept(books: seq<Book>, query: string, f: nat, j: nat)
    requires f + 1 <= j && j + 1 < |books|
    requires forall m :: 0 <= m < f ==> !TitleMatches(books[m], query)
    requires books[f + 1] !in books[f + 2..]
    requires TitleMatches(books[j + 1], query)
    ensures books[j + 1] !in books[..f] + [books[f + 1]]
  {
  }

  // ---------------------------------------------------------------------------
  // Concrete runs

  /** Two different records that both match, one after the other: only the
      first is removed, the second is skipped. */
  lemma RemoveAdjacentMatches(a: Book, b: Book, query: string)
    requires TitleMatches(a, query) && TitleMatches(b, query) && a != b
    ensures RemoveScan([a, b], query, 0) == [b]
  {
    assert IndexOf([a, b], a) == 0;
    assert [a, b][..0] + [a, b][1..] == [b];
  }

  /** With records A, A, B, A (A matching, B not), the first A is removed, the
      second is skipped, and reaching the third deletes the skipped one, so
      the result is B, A: the surviving A now comes after B. */
  lemma RemoveMovesDuplicate(a: Book, b: Book, query: string)
    requires TitleMatches(a, query) && !TitleMatches(b, query)
    ensures RemoveScan([a, a, b, a], query, 0) == [b, a]
  {
    var l0, l1, l2 := [a, a, b, a], [a, b, a], [b, a];
    RemoveLeadingCopies(a, b);
    calc {
      RemoveScan(l0, query, 0);
      RemoveScan(l1, query, 1);
      RemoveScan(l1, query, 2);
      RemoveScan(l2, query, 3);
      l2;
    }
  }

  /** `list.remove(a)` deletes the copy of `a` at the front, not a later one. */
  lemma RemoveLeadingCopies(a: Book, b: Book)
    requires a != b
    ensures RemoveFirstEqual([a, a, b, a], a) == [a, b, a]
    ensures RemoveFirstEqual([a, b, a], a) == [b, a]
  {
    assert IndexOf([a, a, b, a], a) == 0;
    assert [a, a, b, a][1..] == [a, b, a];
    assert IndexOf([a, b, a], a) == 0;
  }
}
