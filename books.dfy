/** Book records and the read-only computations over the collection:
    case-insensitive title matching, the search filter, the first title match
    that an update edits, the single-field update itself, and the reading
    progress counts. */
module Books {
  import opened Text

  datatype Option<T> = None | Some(value: T)

  /** One entry of the collection, with the five keys of the stored JSON object. */
  datatype Book = Book(title: string, author: string, year: string, genre: string, read: bool)

  /** The fields an update can change. */
  datatype Field = Title | Author | Year | Genre | ReadStatus

  /** The elements of `s` that satisfy `p`, in their original order (a list
      comprehension with an `if` clause). */
  function Filter<T(!new)>(p: T -> bool, s: seq<T>): (r: seq<T>)
    ensures |r| <= |s|
    ensures forall x :: multiset(r)[x] == if p(x) then multiset(s)[x] else 0
    ensures forall x :: x in r <==> x in s && p(x)
  {
    if s == [] then []
    else
      assert s == [s[0]] + s[1..];
      if p(s[0]) then [s[0]] + Filter(p, s[1..]) else Filter(p, s[1..])
  }

  lemma {:induction false} FilterConcat<T(!new)>(p: T -> bool, a: seq<T>, b: seq<T>)
    ensures Filter(p, a + b) == Filter(p, a) + Filter(p, b)
  {
    if a == [] {
      assert a + b == b;
    } else {
      var c := a + b;
      assert c[0] == a[0] && c[1..] == a[1..] + b;
      FilterConcat(p, a[1..], b);
    }
  }

  // ---------------------------------------------------------------------------
  // Title matching and the first match

  /** `book["title"].lower() == book_title.lower()` */
  predicate TitleMatches(b: Book, query: string)
    ensures b.title == query ==> TitleMatches(b, query)
    ensures TitleMatches(b, query) ==> |b.title| == |query|
  {
    Lower(b.title) == Lower(query)
  }

  /** The records a title query does not match. */
  function NotTitled(query: string): Book -> bool {
    b => !TitleMatches(b, query)
  }

  /** The position of the first record whose title matches, if any. */
  function FirstTitleMatch(books: seq<Book>, query: string): (r: Option<nat>)
    ensures r.Some? ==> r.value < |books| && TitleMatches(books[r.value], query)
    ensures r.Some? ==> forall j :: 0 <= j < r.value ==> !TitleMatches(books[j], query)
    ensures r.None? <==> forall j :: 0 <= j < |books| ==> !TitleMatches(books[j], query)
  {
    if books == [] then None
    else if TitleMatches(books[0], query) then Some(0)
    else match FirstTitleMatch(books[1..], query)
      case None => None
      case Some(j) => Some(j + 1)
  }

  /** A matching record with no match before it is the first match. */
  lemma FirstTitleMatchAt(books: seq<Book>, query: string, i: nat)
    requires i < |books| && TitleMatches(books[i], query)
    requires forall j :: 0 <= j < i ==> !TitleMatches(books[j], query)
    ensures FirstTitleMatch(books, query) == Some(i)
  {
  }

  // ---------------------------------------------------------------------------
  // Search

  /** The search keeps a record when the lower-cased search text occurs in its
      lower-cased title or in its lower-cased author. */
  predicate SearchHit(b: Book, text: string)
    ensures text == [] ==> SearchHit(b, text)
    ensures SearchHit(b, text) ==> |text| <= |b.title| || |text| <= |b.author|
  {
    assert [] <= Lower(b.title)[0..];
    Contains(Lower(b.title), text) || Contains(Lower(b.author), text)
  }

  function Hits(text: string): Book -> bool {
    b => SearchHit(b, text)
  }

  /** The matching records of a search. The search type the user picked
      ("1" title, "2" author) plays no part in the result. */
  function Search(books: seq<Book>, searchType: string, searchText: string): (found: seq<Book>)
    ensures forall b :: b in found <==>
      b in books && (Contains(Lower(b.title), Lower(searchText)) || Contains(Lower(b.author), Lower(searchText)))
    ensures forall b :: multiset(found)[b] == (if SearchHit(b, Lower(searchText)) then multiset(books)[b] else 0)
  {
    Filter(Hits(Lower(searchText)), books)
  }

  /** Results keep the order of the collection: the hits among earlier records
      come before the hits among later ones. */
  lemma SearchConcat(a: seq<Book>, b: seq<Book>, searchType: string, searchText: string)
    ensures Search(a + b, searchType, searchText) == Search(a, searchType, searchText) + Search(b, searchType, searchText)
  {
    FilterConcat(Hits(Lower(searchText)), a, b);
  }

  /** The search type never changes the result. */
  lemma SearchIgnoresType(books: seq<Book>, type1: string, type2: string, searchText: string)
    ensures Search(books, type1, searchText) == Search(books, type2, searchText)
  {
  }

  /** An empty search text matches every record, so the whole collection comes back. */
  lemma {:induction false} SearchEmptyFindsAll(books: seq<Book>, searchType: string)
    ensures Search(books, searchType, "") == books
  {
    if books != [] {
      assert Lower("") == "";
      assert "" <= Lower(books[0].title)[0..];
      assert books == [books[0]] + books[1..];
      SearchConcat([books[0]], books[1..], searchType, "");
      SearchEmptyFindsAll(books[1..], searchType);
    }
  }

  /** A record just added is found again by searching for its title. */
  lemma AddedBookIsFound(books: seq<Book>, added: Book, searchType: string)
    ensures added in Search(books + [added], searchType, added.title)
  {
    var t := Lower(added.title);
    assert t <= t[0..];
  }

  // ---------------------------------------------------------------------------
  // Update of one field

  /** The field an update choice selects; any other answer selects none. */
  function ChosenField(choice: string): (f: Option<Field>)
    ensures f.None? <==> choice !in {"1", "2", "3", "4", "5"}
  {
    if choice == "1" then Some(Title)
    else if choice == "2" then Some(Author)
    else if choice == "3" then Some(Year)
    else if choice == "4" then Some(Genre)
    else if choice == "5" then Some(ReadStatus)
    else None
  }

  /** The fields in which two records differ. */
  function Differing(a: Book, b: Book): set<Field> {
    (if a.title != b.title then {Title} else {})
    + (if a.author != b.author then {Author} else {})
    + (if a.year != b.year then {Year} else {})
    + (if a.genre != b.genre then {Genre} else {})
    + (if a.read != b.read then {ReadStatus} else {})
  }

  /** The edit one update applies to the record it found. `answer` is the text
      typed after the choice; for the read status it is normalised like the
      answer given when the book was added. */
  function ApplyUpdate(b: Book, choice: string, answer: string): (r: Book)
    ensures ChosenField(choice).None? ==> r == b
    ensures ChosenField(choice).Some? ==> Differing(b, r) <= {ChosenField(choice).value}
    ensures ChosenField(choice) == Some(Title) ==> r.title == answer
    ensures ChosenField(choice) == Some(Author) ==> r.author == answer
    ensures ChosenField(choice) == Some(Year) ==> r.year == answer
    ensures ChosenField(choice) == Some(Genre) ==> r.genre == answer
    ensures ChosenField(choice) == Some(ReadStatus) ==> r.read == IsYes(answer)
  {
    if choice == "1" then b.(title := answer)
    else if choice == "2" then b.(author := answer)
    else if choice == "3" then b.(year := answer)
    else if choice == "4" then b.(genre := answer)
    else if choice == "5" then b.(read := IsYes(answer))
    else b
  }

  /** The collection after an update: the first title match, if there is one,
      is edited; nothing else changes. */
  function Updated(books: seq<Book>, query: string, choice: string, answer: string): (r: seq<Book>)
    ensures |r| == |books|
    ensures FirstTitleMatch(books, query).None? ==> r == books
    ensures forall j :: 0 <= j < |books| && FirstTitleMatch(books, query) != Some(j) ==> r[j] == books[j]
    ensures FirstTitleMatch(books, query).Some? ==>
      var f := FirstTitleMatch(books, query).value;
      r[f] == ApplyUpdate(books[f], choice, answer)
  {
    match FirstTitleMatch(books, query)
    case None => books
    case Some(f) => books[f := ApplyUpdate(books[f], choice, answer)]
  }

  // ---------------------------------------------------------------------------
  // Reading progress

  /** `sum(1 for book in book_list if book["read"])` */
  function CountRead(books: seq<Book>): (n: nat)
    ensures n <= |books|
  {
    if books == [] then 0 else (if books[0].read then 1 else 0) + CountRead(books[1..])
  }

  predicate IsRead(b: Book) { b.read }

  /** The read count is the number of records marked as read. */
  lemma {:induction false} CountReadIsReadRecords(books: seq<Book>)
    ensures CountRead(books) == |Filter(IsRead, books)|
  {
    if books != [] {
      assert books == [books[0]] + books[1..];
      FilterConcat(IsRead, [books[0]], books[1..]);
      CountReadIsReadRecords(books[1..]);
    }
  }

  /** Replacing one record changes the read count by the difference of their
      read flags. */
  lemma {:induction false} CountReadReplace(books: seq<Book>, i: nat, b: Book)
    requires i < |books|
    ensures CountRead(books[i := b]) + (if books[i].read then 1 else 0)
         == CountRead(books) + (if b.read then 1 else 0)
  {
    if i > 0 {
      assert books[i := b][1..] == books[1..][i - 1 := b];
      CountReadReplace(books[1..], i - 1, b);
    } else {
      assert books[i := b][1..] == books[1..];
    }
  }

  /** Marking an unread book as read through update choice "5" raises the read
      count by exactly one. */
  lemma MarkingReadCountsOnce(books: seq<Book>, query: string, answer: string)
    requires FirstTitleMatch(books, query).Some?
    requires !books[FirstTitleMatch(books, query).value].read
    requires IsYes(answer)
    ensures CountRead(Updated(books, query, "5", answer)) == CountRead(books) + 1
  {
    var f := FirstTitleMatch(books, query).value;
    CountReadReplace(books, f, ApplyUpdate(books[f], "5", answer));
  }

  /** What "View reading progress" shows: a "no books" notice for an empty
      collection, otherwise the total and the number read. */
  datatype Progress = NoBooks | Summary(total: nat, readCount: nat)

  function ReadingProgress(books: seq<Book>): (p: Progress)
    ensures p.NoBooks? <==> books == []
    ensures p.Summary? ==> p.total == |books| > 0 && p.readCount <= p.total
    ensures p.Summary? ==> p.readCount == |Filter(IsRead, books)|
  {
    CountReadIsReadRecords(books);
    if books == [] then NoBooks else Summary(|books|, CountRead(books))
  }

  /** The percentage read, as the exact ratio `readCount * 100 / total`. */
  function PercentRead(p: Progress): (pct: real)
    requires p.Summary? && 0 < p.total && p.readCount <= p.total
    ensures 0.0 <= pct <= 100.0
    ensures pct == 100.0 <==> p.readCount == p.total
    ensures pct == 0.0 <==> p.readCount == 0
  {
    var r, t := p.readCount as real, p.total as real;
    assert 0.0 <= r <= t && 0.0 < t;
    var pct := r * 100.0 / t;
    assert pct * t == r * 100.0;
    pct
  }
}
