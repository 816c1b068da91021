/** The book collection object: the list of records it owns and the
    operations that change it. Every write of the storage file is counted in
    the ghost field `saves`, so each contract says exactly when the
    collection is persisted. */
module Collection {
  import opened Text
  import opened Books
  import opened Removal
  import opened Menu

  /** The lines a user types after choosing a menu entry. Each command reads
      only the ones it prompts for. */
  datatype Answers = Answers(
    title: string, author: string, year: string, genre: string, readAnswer: string,
    searchType: string, searchText: string,
    target: string, updateChoice: string, newValue: string)

  class BookCollection {
    var books: seq<Book>
    ghost var saves: nat

    /** A collection starts with what was loaded from storage (empty when there
        is no storage file yet). */
    constructor (stored: seq<Book>)
      ensures books == stored && saves == 0
    {
      books := stored;
      saves := 0;
    }

    /** Appends the new record at the end and saves once. */
    method CreateNewBook(title: string, author: string, year: string, genre: string, readAnswer: string)
      modifies this
      ensures books == old(books) + [Book(title, author, year, genre, IsYes(readAnswer))]
      ensures saves == old(saves) + 1
    {
      var book := Book(title, author, year, genre, IsYes(readAnswer));
      books := books + [book];
      saves := saves + 1;
    }

    /** Walks the list as Python's `for` loop does while `list.remove` shrinks
        it, saving after every removal. */
    method RemoveBook(query: string)
      modifies this
      ensures books == RemoveScan(old(books), query, 0)
      ensures saves == old(saves) + (|old(books)| - |books|)
      ensures FirstTitleMatch(old(books), query).None? ==> books == old(books) && saves == old(saves)
      ensures FirstTitleMatch(old(books), query).Some? ==> |books| < |old(books)| && saves > old(saves)
      ensures Filter(NotTitled(query), books) == Filter(NotTitled(query), old(books))
    {
      var i := 0;
      while i < |books|
        invariant RemoveScan(books, query, i) == RemoveScan(old(books), query, 0)
        invariant |books| <= |old(books)|
        invariant saves == old(saves) + (|old(books)| - |books|)
        decreases |books| - i
      {
        var book := books[i];
        i := i + 1;
        if TitleMatches(book, query) {
          books := RemoveFirstEqual(books, book);
          saves := saves + 1;
        }
      }
      RemoveOnlyMatches(old(books), query);
      if FirstTitleMatch(old(books), query).None? {
        RemoveWithoutMatchIsIdentity(old(books), query);
      } else {
        RemoveDeletesFirstMatch(old(books), query);
      }
    }

    /** Edits the first record whose title matches and saves once; without a
        match nothing changes and nothing is saved. */
    method UpdateBook(query: string, choice: string, answer: string)
      modifies this
      ensures books == Updated(old(books), query, choice, answer)
      ensures saves == old(saves) + (if FirstTitleMatch(old(books), query).Some? then 1 else 0)
    {
      var i := 0;
      while i < |books|
        invariant i <= |books|
        invariant forall j :: 0 <= j < i ==> !TitleMatches(books[j], query)
        invariant books == old(books) && saves == old(saves)
      {
        if TitleMatches(books[i], query) {
          FirstTitleMatchAt(books, query, i);
          books := books[i := ApplyUpdate(books[i], choice, answer)];
          saves := saves + 1;
          return;
        }
        i := i + 1;
      }
    }

    /** One pass of the menu loop: dispatches the choice, and reports whether
        the loop goes on. Searching, listing and the progress view only print,
        so they leave the collection as it is. */
    method Step(choice: string, input: Answers) returns (running: bool)
      modifies this
      ensures running <==> choice != "7"
      ensures !Changes(Dispatch(choice)) ==> books == old(books) && saves == old(saves)
      ensures Dispatch(choice) == AddNew ==>
        books == old(books) + [Book(input.title, input.author, input.year, input.genre, IsYes(input.readAnswer))]
        && saves == old(saves) + 1
      ensures Dispatch(choice) == RemoveByTitle ==>
        books == RemoveScan(old(books), input.target, 0) && saves == old(saves) + (|old(books)| - |books|)
      ensures Dispatch(choice) == UpdateByTitle ==>
        books == Updated(old(books), input.target, input.updateChoice, input.newValue)
        && saves == old(saves) + (if FirstTitleMatch(old(books), input.target).Some? then 1 else 0)
    {
      running := true;
      match Dispatch(choice)
      case AddNew =>
        CreateNewBook(input.title, input.author, input.year, input.genre, input.readAnswer);
      case RemoveByTitle =>
        RemoveBook(input.target);
      case SearchByText =>
        // the records that get printed as the search results
        var found := Search(books, input.searchType, input.searchText);
      case UpdateByTitle =>
        UpdateBook(input.target, input.updateChoice, input.newValue);
      case ListAll =>
      case ShowProgress =>
        // the counts that get printed as the progress report
        var progress := ReadingProgress(books);
      case Exit =>
        running := false;
      case Invalid =>
    }
  }
}
