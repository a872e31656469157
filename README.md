# Library catalog model

A Dafny model of the in-memory book catalog of the personal library manager
(`library/engine/library.py`, class `Library`). The catalog is an ordered
list of book records, each with an id, a title, an author, a year and an
availability status (`"в наличии"` or `"выдана"`). Four operations work on
that list:

- adding a book rejects a duplicate title, otherwise appends an available
  record whose id is the current length plus one;
- removing a book deletes the first record with the given id;
- searching returns, in catalog order, every record whose title or author
  contains the query case-insensitively, or whose year is the query;
- changing a status accepts only the two labels and rewrites the status of
  the first record with the given id.

After each change the whole list is written to storage.

The model has three modules:

- `Text` (`text.dfy`): Python's substring test `needle in hay` and the
  decimal rendering `str(n)` of an integer, with their reference
  characterisations.
- `Catalog` (`catalog.dfy`): the record and status datatypes, and each
  operation's effect on the list as a pure function. Lemmas prove what those
  effects preserve.
- `Engine` (`library.dfy`): the class `Library` with a `books: seq<Book>`
  field, updated in place by `AddBook`, `RemoveBook` and `ChangeStatus`.
  Their loops follow the source's scans. The ghost field `saves` logs every
  snapshot `SaveBooks` writes, so each contract says when storage is
  rewritten. `CatalogWalkThrough` states the scenarios of the repository's
  tests as a client proved from these contracts alone.

Two consequences of the code are stated explicitly:

- Ids are not unique. The id of a new record is the length plus one, so it
  can repeat an id after a deletion. `Catalog.IdReuseAfterRemove` exhibits
  this.
- When ids are distinct, removing an id makes it unfindable
  (`Catalog.RemovedIdIsGone`). When an id repeats, a later record with it can
  still be found after the removal (`Catalog.IdReuseAfterRemove`). For that
  reason remove and status change are specified as "first match".

## Model

| member | source | states |
|---|---|---|
| `Text.Contains` | library/engine/library.py:94-95 | Python `in` on strings; a match implies the query is no longer than the text, and the empty query always matches |
| `Text.ContainsIsSlice` | library/engine/library.py:94-95 | the scan answers true exactly when the query equals some contiguous slice of the text |
| `Text.NatToDecimal` | library/engine/library.py:96 | digits of `str(n)` for n >= 0: non-empty, all decimal digits, no leading zero unless n is 0 |
| `Text.IntToDecimal` | library/engine/library.py:96 | `str(year)`: non-empty, and starts with a minus sign exactly when the year is negative |
| `Text.NatToDecimalRoundTrip` | library/engine/library.py:96 | reading the digits back gives the number again |
| `Text.IntToDecimalRoundTrip` | library/engine/library.py:96 | reading `str(year)` back, sign included, gives the year again |
| `Text.IntToDecimalInjective` | library/engine/library.py:96 | two years that print alike are equal, so an exact year query selects a single year |
| `Catalog.ParseStatus` | library/engine/library.py:123-125 | a status string is accepted exactly when it is one of the two labels, and the accepted status carries that label |
| `Catalog.ParseLabel` | library/engine/library.py:60 | each status label is accepted as that status |
| `Catalog.HasTitle` | library/engine/library.py:51 | the `any(...)` duplicate test is true exactly when some record has exactly the given title |
| `Catalog.Added` | library/engine/library.py:51-62 | add_book's effect: the old list is a prefix of the result, at most one record is added, a duplicate title leaves the list unchanged, a fresh title appends the available record with id old length plus one, and afterwards the title is present |
| `Catalog.AddedKeepsTitlesDistinct` | library/engine/library.py:51-62 | adding keeps titles pairwise distinct, and afterwards the title is present, so repeating the add is rejected |
| `Catalog.FirstIndexOfId` | library/engine/library.py:73-74 | the position of the first record with the id: it has the id and no earlier one does; there is no position exactly when no record has the id |
| `Catalog.RemoveValue` | library/engine/library.py:75 | `list.remove` shortens the list by one |
| `Catalog.RemoveValueIsFirstOccurrence` | library/engine/library.py:75 | `list.remove(x)` deletes exactly the first occurrence of `x` and keeps the rest in order |
| `Catalog.RemoveValueCount` | library/engine/library.py:75 | `list.remove` takes away exactly one occurrence of the value |
| `Catalog.RemoveValueAtFirstId` | library/engine/library.py:73-75 | removing the first record with the id by value deletes exactly its position, as no equal record can come earlier |
| `Catalog.RemoveFirstId` | library/engine/library.py:73-78 | remove_book's effect: with no record having the id the list is unchanged; otherwise it is one shorter, the records before the first match stay, those after it move up one place, and exactly that record leaves the multiset |
| `Catalog.SubsequenceKeepsTitlesDistinct` | library/engine/library.py:73-78 | deleting records never makes two titles collide |
| `Catalog.RemoveFirstIdIsDeletion` | library/engine/library.py:73-79 | removal yields an order-preserving subsequence; one record shorter if the id occurs and unchanged otherwise; titles stay distinct |
| `Catalog.RemovedIdIsGone` | library/engine/library.py:73-78 | when ids are distinct the removed id can no longer be found |
| `Catalog.IdReuseAfterRemove` | library/engine/library.py:54-78 | the length-plus-one rule hands out an id already in use after a deletion |
| `Catalog.ChangedStatus` | library/engine/library.py:127-133 | change_status's effect after the whitelist: length, ids, titles, authors and years stay the same; only the first record with the id can differ, and it gets the new status |
| `Catalog.ChangedStatusKeepsTitlesDistinct` | library/engine/library.py:127-133 | a status change keeps titles pairwise distinct |
| `Catalog.Matches` | library/engine/library.py:94-96 | the comprehension's condition: a query equal to the title, the author or the decimal year matches, and so does any query that lowers to the empty string |
| `Catalog.Search` | library/engine/library.py:91-98 | the result is no longer than the catalog and holds only catalog records that match the query |
| `Catalog.SearchIsSubsequence` | library/engine/library.py:91-98 | the result keeps catalog order (a subsequence of the catalog) |
| `Catalog.SearchCounts` | library/engine/library.py:91-98 | every matching record occurs in the result as often as in the catalog, and no other record occurs |
| `Catalog.SearchFindsTitleAndYear` | library/engine/library.py:94-96 | a record is found by its exact title and by its year in decimal |
| `Catalog.SearchEmptyQuery` | library/engine/library.py:94-95 | the empty query returns the whole catalog |
| `Engine.Library.constructor` | library/engine/library.py:6-16 | starts with the stored records when they could be read and with an empty list otherwise; nothing saved yet |
| `Engine.Library.LoadBooks` | library/engine/library.py:18-35 | a successful read replaces the records; a missing file, bad JSON or other failure leaves them as they were |
| `Engine.Library.SaveBooks` | library/engine/library.py:37-40 | appends a snapshot of the whole current list to the storage log |
| `Engine.Library.AddBook` | library/engine/library.py:42-64 | a duplicate title changes nothing and saves nothing; otherwise exactly one available record with id old length plus one is appended and saved; title distinctness is preserved |
| `Engine.Library.RemoveBook` | library/engine/library.py:66-79 | removes the first record with the id and saves once; with no such id nothing changes and nothing is saved; the result keeps order and distinct titles |
| `Engine.Library.SearchBooks` | library/engine/library.py:81-98 | returns an order-preserving subsequence holding exactly the matching records; the catalog is untouched |
| `Engine.Library.DisplayBooks` | library/engine/library.py:100-113 | shows the empty notice exactly when the catalog is empty, otherwise all records in order |
| `Engine.Library.ChangeStatus` | library/engine/library.py:115-133 | a status outside the whitelist or a missing id changes and saves nothing; otherwise only the first record with the id gets the status, and one save follows; length and distinct titles are preserved |

## Left out

- Reading and writing the file: the JSON encoding is not modelled. The outcome
  of reading is a constructor parameter (`LoadOutcome`), and a save is a
  snapshot appended to the ghost log `saves`. A stored record is assumed to
  have the five fields with their types; arbitrary JSON content is not modelled.
- Save failures: `save_books` does not handle them, so an exception raised
  after the in-memory change is not modelled.
- Printed messages: every `print` is left out. That includes the record
  formatting of `display_books` and the spurious "not found" line that
  `remove_book` prints for each non-matching record before the match. That
  line does not affect the list.
- Python's `str.lower`: Unicode case mapping is library behaviour. It is a
  parameter `lower: string -> string` of the search. The empty-query lemma
  assumes `lower("") == ""`.
- Status storage: the status is a two-value datatype displayed through its
  label. A stored file whose status is some other string cannot be expressed.
- Aliasing: records are values. `search_books` returns the same dictionary
  objects that the catalog holds, so in the source a later status change is
  visible through an earlier search result. The model does not capture this.
- Id uniqueness: not claimed, because the length-plus-one rule can reuse ids.
- The interactive menu in `library/scripts/library_engine.py`: its `input`,
  `int` parsing and printing are not part of this model.
