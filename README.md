# Personal library manager: a verified model of the book collection

The application keeps a personal book catalogue. A `BookCollection` object owns
`book_list`, an ordered list of records with the keys `title`, `author`, `year`,
`genre` and `read`. A text menu adds, removes, searches, updates and lists books
and shows reading progress. Every change rewrites a JSON file.

This project models that collection in Dafny:

- `text.dfy` (module `Text`): the Python string operations the code relies on.
  These are `str.lower()` on ASCII letters, `str.strip()` with Python's whitespace
  set, the substring test `q in s`, and the yes/no rule `answer.strip().lower() == "yes"`.
- `books.dfy` (module `Books`): the `Book` record and the read-only computations.
  These are case-insensitive title matching, the search filter, the first title
  match, the single-field update, and the reading-progress counts.
- `removal.dfy` (module `Removal`): removal by title, exactly as the source's loop
  behaves. The `for` loop walks `book_list` by position and calls `list.remove(book)`
  inside the loop. `list.remove` deletes the first record equal to `book`, comparing
  whole records. So:
  - the first match is always deleted;
  - a match directly after a deleted record is skipped;
  - when a skipped record has an equal copy further on, reaching that copy deletes
    the earlier skipped record instead, so the surviving copy can move (`[A, A, B, A]`
    becomes `[B, A]`).
- `menu.dfy` (module `Menu`): one dispatch step of the menu. `"1"`–`"6"` select
  commands, `"7"` ends the loop, and anything else is invalid.
- `collection.dfy` (module `Collection`): the class `BookCollection`. Its field
  `books: seq<Book>` is the list. The ghost counter `saves` counts calls to
  `save_to_file`. Its methods are the in-place operations, each a loop where the
  source has one, and the answers to `input()` prompts are parameters.

The storage file is never read or written here. A load is the constructor's
argument, and a save is one increment of `saves`.

The model follows the code as written. Search ORs the query over title and
author, whatever search type was chosen. Removal is neither a clean "remove
first" nor a "remove all", for the reasons given above.

## Model

| member | source | states |
|---|---|---|
| Text.Lower | main.py:37 | lower-casing keeps the length and maps every character through the ASCII letter mapping; the same operation lower-cases titles, authors and queries at main.py:54, 62, 66-67, 81 and 104 |
| Text.Strip | main.py:37 | `strip()` never lengthens the text, and its result is empty or neither starts nor ends with a whitespace character; the same call normalises the read answer at main.py:104 |
| Text.IsYes | main.py:36-38 | the read flag is `answer.strip().lower() == "yes"` (also at main.py:104); a yes answer has at least three characters, and `IsYesIff` gives its exact characterisation |
| Text.StripSplits | main.py:37 | `strip()` splits the answer into leading whitespace, a text that neither starts nor ends with whitespace, and trailing whitespace |
| Text.StripUnique | main.py:37 | any text without whitespace at its ends, padded with whitespace, strips back to exactly that text |
| Text.IsYesIff | main.py:36-38 | the read flag is true iff the answer is "yes" in any letter case, with only whitespace around it (both directions) |
| Text.PaddedYes | main.py:104 | a padded "yes" in any letter case sets the read status to true when updating |
| Text.PaddedCapitalYes | main.py:37 | `" YES\n"` counts as yes |
| Text.NotYesExamples | main.py:37 | `"y"`, `"no"`, `""` and `"yes please"` count as no |
| Text.Contains | main.py:66-67 | Python's `q in s` holds iff `q` occurs in `s` at some offset; the empty query occurs everywhere |
| Books.Filter | main.py:63-68 | the comprehension keeps, with their multiplicities, exactly the records the condition accepts and nothing else |
| Books.FilterConcat | main.py:63-68 | filtering a concatenation concatenates the filtered parts, so the order is kept |
| Books.SearchHit | main.py:66-67 | the per-record search test ORs the substring test over the lower-cased title and author; an empty query hits every record, and a hit needs a title or an author at least as long as the query |
| Books.Search | main.py:59-68 | a record is found iff it is in the list and the lower-cased query is a substring of its lower-cased title or of its lower-cased author, with its number of copies kept |
| Books.SearchConcat | main.py:63-68 | results come in list order: hits among earlier records precede hits among later ones |
| Books.SearchIgnoresType | main.py:61-68 | the chosen search type does not affect the result |
| Books.SearchEmptyFindsAll | main.py:62-68 | an empty query returns the whole collection |
| Books.AddedBookIsFound | main.py:63-68 | after appending a record, searching for its title finds it |
| Books.TitleMatches | main.py:54 | titles match when equal after lower-casing (the same test as at main.py:81): a record always matches its own title, and matching titles have the query's length |
| Books.FirstTitleMatch | main.py:80-81 | returns the index of a case-insensitive title match with no match before it, or nothing iff no record matches |
| Books.FirstTitleMatchAt | main.py:80-81 | a matching record with no match before it is the first match |
| Books.ChosenField | main.py:89-105 | choices "1"–"5" select title, author, year, genre and read status; any other answer selects no field |
| Books.ApplyUpdate | main.py:91-105 | only the selected field may differ afterwards and it holds the new value (the read status normalised by the yes rule); any other choice leaves the record unchanged |
| Books.Updated | main.py:80-109 | the update keeps the length and changes only the first title match, and only as `ApplyUpdate` says; without a match the list is unchanged |
| Books.CountRead | main.py:128 | the read count is at most the number of records |
| Books.CountReadIsReadRecords | main.py:128 | the read count equals the number of records whose `read` is true |
| Books.CountReadReplace | main.py:103-105 | replacing one record changes the read count by the difference of the old and new read flags |
| Books.MarkingReadCountsOnce | main.py:103-105 | answering yes to choice "5" on an unread first match raises the read count by exactly one |
| Books.ReadingProgress | main.py:122-128 | an empty collection gives the "no books" outcome; otherwise the total is the length and the read count is the number of read records, at most the total |
| Books.PercentRead | main.py:129 | the percentage `read * 100 / total` lies between 0 and 100, is 100 iff all books are read and 0 iff none is |
| Removal.IndexOf | main.py:55 | `list.remove` targets the first position holding an equal record |
| Removal.RemoveFirstEqual | main.py:55 | `list.remove` shortens the list by exactly one record |
| Removal.RemoveFirstEqualDeletesFirstCopy | main.py:55 | `list.remove` deletes exactly one copy of the record, the first one: the records before it stay in place and those after it move up by one |
| Removal.RemoveScan | main.py:53-56 | the loop from iterator position `i`: read `books[i]`, advance, and on a title match apply `list.remove`, stopping once the position reaches the current length; the result is never longer than the list |
| Removal.RemoveOnlyMatches | main.py:53-56 | removal deletes only records whose lower-cased title equals the lower-cased query; non-matching records all stay, in their relative order |
| Removal.RemoveWithoutMatchIsIdentity | main.py:53-57 | if no title matches, the list is unchanged |
| Removal.RemoveDeletesFirstMatch | main.py:53-56 | if some title matches, the records before the first match stay in place, one copy of the first match is gone, and the list gets shorter |
| Removal.RemoveSkipsNextMatch | main.py:53-55 | a match right after the first match is skipped and survives where the first match stood, unless an equal copy of it comes later |
| Removal.RemoveAdjacentMatches | main.py:53-55 | of two different adjacent matching records, only the first is removed |
| Removal.RemoveMovesDuplicate | main.py:53-55 | records A, A, B, A (A matching) become B, A: a skipped copy is deleted when a later equal copy is reached |
| Removal.RemoveLeadingCopies | main.py:55 | `list.remove(a)` on a list starting with `a` drops that front copy |
| Menu.Dispatch | main.py:145-163 | "7" and only "7" ends the loop; input other than "1"–"7" is invalid; exactly "1", "2" and "4" select a command that can change the collection |
| Menu.DispatchDistinguishesEntries | main.py:147-161 | the seven menu entries select seven different commands |
| Collection.BookCollection.constructor | main.py:7-11 | a new collection holds the stored records and has saved nothing yet |
| Collection.BookCollection.CreateNewBook | main.py:30-48 | appends exactly one record with the given fields and the normalised read flag, leaves earlier records unchanged, and saves exactly once |
| Collection.BookCollection.RemoveBook | main.py:50-57 | the list becomes the result of the position-by-position scan with `list.remove`; one save per removed record; no match means no change and no save; a match means a shorter list and at least one save; non-matching records keep their order |
| Collection.BookCollection.UpdateBook | main.py:77-110 | the list becomes `Updated(...)`, so only the first title match changes and only in the chosen field; one save if a title matched (also for a choice outside "1"–"5"), none otherwise |
| Collection.BookCollection.Step | main.py:135-163 | one menu pass: the loop continues iff the choice is not "7"; only "1", "2" and "4" can change the list or save; each of them behaves as its method |

## Left out

- Reading and writing the JSON file (`read_from_file`, `save_to_file`, main.py:13-28) is not modelled. It is I/O through a library outside this model. A load is the constructor's argument, and each call to `save_to_file` is one increment of the ghost counter `saves`. A failed write (caught and printed by the source) is not modelled; the in-memory list is unaffected by it either way.
- A storage file that is corrupted or holds records of another shape is not modelled. The source only handles a missing file, although its docstring also claims that a corrupted file gives an empty collection.
- Console output is not modelled: every `print`, the listing of `display_books` (main.py:112-120), and the formatted search results (main.py:69-75). Listing and printing search results leave the collection unchanged, and `Step` states that.
- `input()` prompts are not modelled. The answers are method parameters (the `Answers` record in `Step`).
- Text.Lower: lower-cases ASCII letters only. Python's `str.lower()` also maps other Unicode letters, so two non-ASCII titles that differ only in case are not treated as matching here.
- Books.PercentRead: the percentage is the exact rational `read * 100 / total`. The source computes it in floating point and prints it with two decimals (main.py:129, 132), which is not modelled.
- The endless `while True` menu loop (main.py:136) is modelled as a single step (`Step`), not as a run over a sequence of inputs.
- Records are values here, while the source updates a dictionary object inside the list in place. Every record in the list is its own object, because each is created by `create_new_book` or by the JSON loader, so no aliasing is lost.
- `list.remove` raises an error when the record is absent. This cannot happen in `remove_book`, because the record was just read from the list, so `RemoveFirstEqual` requires the record to be present.
