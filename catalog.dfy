/** The catalog as a value: book records, the two statuses, and the effect of
    each catalog operation on the ordered list of records. The class in
    module Engine performs these effects in place. */
module Catalog {
  import opened Text

  datatype Option<T> = None | Some(value: T)

  /** Availability of a copy; the catalog records it under its Russian label. */
  datatype Status = Available | CheckedOut

  const AvailableLabel: string := "в наличии"
  const CheckedOutLabel: string := "выдана"

  function Label(s: Status): string
  {
    match s
    case Available => AvailableLabel
    case CheckedOut => CheckedOutLabel
  }

  /** The status whitelist of change_status: only the two labels are accepted. */
  function ParseStatus(text: string): (r: Option<Status>)
    ensures r.Some? <==> (text == AvailableLabel || text == CheckedOutLabel)
    ensures r.Some? ==> Label(r.value) == text
  {
    if text == AvailableLabel then Some(Available)
    else if text == CheckedOutLabel then Some(CheckedOut)
    else None
  }

  lemma ParseLabel(s: Status)
    ensures ParseStatus(Label(s)) == Some(s)
  {
  }

  /** One catalog record. */
  datatype Book = Book(id: int, title: string, author: string, year: int, status: Status)

  // ---------------------------------------------------------------------------
  // Adding a book

  /** The duplicate test of add_book, an `any` over the records in order:
      true exactly when some record carries exactly this title. */
  function HasTitle(books: seq<Book>, title: string): (r: bool)
    ensures r <==> exists i :: 0 <= i < |books| && books[i].title == title
  {
    books != [] && (books[0].title == title || HasTitle(books[1..], title))
  }

  /** No two records share a title. */
  predicate TitlesDistinct(books: seq<Book>)
  {
    forall i, j :: 0 <= i < j < |books| ==> books[i].title != books[j].title
  }

  /** The catalog after add_book: unchanged on a duplicate title, otherwise one
      available record appended whose id is the old length plus one. */
  function Added(books: seq<Book>, title: string, author: string, year: int): (r: seq<Book>)
    ensures books <= r && |r| <= |books| + 1
    ensures HasTitle(books, title) ==> r == books
    ensures !HasTitle(books, title) ==> |r| == |books| + 1 && r[|books|] == Book(|books| + 1, title, author, year, Available)
    ensures HasTitle(r, title)
  {
    if HasTitle(books, title) then books
    else books + [Book(|books| + 1, title, author, year, Available)]
  }

  lemma AddedKeepsTitlesDistinct(books: seq<Book>, title: string, author: string, year: int)
    requires TitlesDistinct(books)
    ensures TitlesDistinct(Added(books, title, author, year))
    ensures HasTitle(Added(books, title, author, year), title)
  {
    var r := Added(books, title, author, year);
    if !HasTitle(books, title) {
      assert r[|books|].title == title;
    }
  }

  // ---------------------------------------------------------------------------
  // Looking a record up by id

  /** Position of the first record with this id, as a forward scan finds it. */
  function FirstIndexOfId(books: seq<Book>, id: int): (r: Option<nat>)
    ensures r.Some? ==> r.value < |books| && books[r.value].id == id
    ensures r.Some? ==> forall j :: 0 <= j < r.value ==> books[j].id != id
    ensures r.None? <==> forall j :: 0 <= j < |books| ==> books[j].id != id
  {
    if books == [] then None
    else if books[0].id == id then Some(0)
    else match FirstIndexOfId(books[1..], id)
      case None => None
      case Some(k) => Some(k + 1)
  }

  /** No two records share an id; the catalog does not guarantee this. */
  predicate IdsDistinct(books: seq<Book>)
  {
    forall i, j :: 0 <= i < j < |books| ==> books[i].id != books[j].id
  }

  // ---------------------------------------------------------------------------
  // Removing a book

  /** Python's `list.remove(x)`: drop the first element equal to `x`. */
  function RemoveValue(s: seq<Book>, x: Book): (r: seq<Book>)
    requires x in s
    ensures |r| == |s| - 1
  {
    if s[0] == x then s[1..] else [s[0]] + RemoveValue(s[1..], x)
  }

  /** `list.remove` takes away exactly one occurrence of the value. */
  lemma {:induction false} RemoveValueCount(s: seq<Book>, x: Book)
    requires x in s
    ensures multiset(RemoveValue(s, x)) == multiset(s) - multiset{x}
    decreases |s|
  {
    assert s == [s[0]] + s[1..];
    if s[0] != x {
      RemoveValueCount(s[1..], x);
    }
  }

  /** `list.remove(x)` deletes the first occurrence of `x` and keeps the
      order of everything else. */
  lemma {:induction false} RemoveValueIsFirstOccurrence(s: seq<Book>, x: Book, k: nat)
    requires k < |s| && s[k] == x
    requires forall j :: 0 <= j < k ==> s[j] != x
    ensures RemoveValue(s, x) == s[..k] + s[k + 1..]
    decreases k
  {
    if k > 0 {
      var t := s[1..];
      RemoveValueIsFirstOccurrence(t, x, k - 1);
      assert s[..k] == [s[0]] + t[..k - 1];
      assert s[k + 1..] == t[k..];
    }
  }

  /** Removing the record found first by id removes exactly that position:
      any equal record would carry the same id and so could not come earlier. */
  lemma RemoveValueAtFirstId(s: seq<Book>, id: int, i: nat)
    requires FirstIndexOfId(s, id) == Some(i)
    ensures RemoveValue(s, s[i]) == s[..i] + s[i + 1..]
  {
    forall j | 0 <= j < i ensures s[j] != s[i] {
      assert s[j].id != id;
    }
    RemoveValueIsFirstOccurrence(s, s[i], i);
  }

  /** The catalog after remove_book: the first record with this id is gone, or
      nothing changes when no record has it. */
  function RemoveFirstId(books: seq<Book>, id: int): (r: seq<Book>)
    ensures FirstIndexOfId(books, id).None? ==> r == books
    ensures FirstIndexOfId(books, id).Some? ==>
      var i := FirstIndexOfId(books, id).value;
      && |r| == |books| - 1
      && r[..i] == books[..i]
      && (forall k :: i <= k < |r| ==> r[k] == books[k + 1])
      && multiset(r) + multiset{books[i]} == multiset(books)
  {
    match FirstIndexOfId(books, id)
    case None => books
    case Some(i) =>
      assert books == books[..i] + [books[i]] + books[i + 1..];
      books[..i] + books[i + 1..]
  }

  /** `r` can be obtained from `s` by deleting elements, keeping the order. */
  predicate IsSubsequence(r: seq<Book>, s: seq<Book>)
    decreases |s|
  {
    if s == [] then r == []
    else (r != [] && r[0] == s[0] && IsSubsequence(r[1..], s[1..])) || IsSubsequence(r, s[1..])
  }

  lemma {:induction false} SubsequenceReflexive(s: seq<Book>)
    ensures IsSubsequence(s, s)
    decreases |s|
  {
    if s != [] {
      SubsequenceReflexive(s[1..]);
    }
  }

  lemma {:induction false} SliceOutIsSubsequence(s: seq<Book>, i: nat)
    requires i < |s|
    ensures IsSubsequence(s[..i] + s[i + 1..], s)
    decreases i
  {
    var r := s[..i] + s[i + 1..];
    if i == 0 {
      assert r == s[1..];
      SubsequenceReflexive(s[1..]);
    } else {
      SliceOutIsSubsequence(s[1..], i - 1);
      assert r[1..] == s[1..][..i - 1] + s[1..][i..];
    }
  }

  lemma {:induction false} SubsequenceElements(r: seq<Book>, s: seq<Book>)
    requires IsSubsequence(r, s)
    ensures forall b :: b in r ==> b in s
    decreases |s|
  {
    if s != [] {
      if r != [] && r[0] == s[0] && IsSubsequence(r[1..], s[1..]) {
        SubsequenceElements(r[1..], s[1..]);
        assert r == [r[0]] + r[1..];
      } else {
        SubsequenceElements(r, s[1..]);
      }
    }
  }

  /** Deleting records never makes two titles collide. */
  lemma {:induction false} SubsequenceKeepsTitlesDistinct(r: seq<Book>, s: seq<Book>)
    requires IsSubsequence(r, s) && TitlesDistinct(s)
    ensures TitlesDistinct(r)
    decreases |s|
  {
    if s != [] {
      assert TitlesDistinct(s[1..]);
      if r != [] && r[0] == s[0] && IsSubsequence(r[1..], s[1..]) {
        SubsequenceKeepsTitlesDistinct(r[1..], s[1..]);
        SubsequenceElements(r[1..], s[1..]);
        forall i, j | 0 <= i < j < |r| ensures r[i].title != r[j].title {
          if i == 0 {
            assert r[j] == r[1..][j - 1];
            assert r[j] in s[1..];
          } else {
            assert r[i] == r[1..][i - 1] && r[j] == r[1..][j - 1];
          }
        }
      } else {
        SubsequenceKeepsTitlesDistinct(r, s[1..]);
      }
    }
  }

  /** remove_book deletes one record when the id is present, keeping the order
      of the rest, and changes nothing otherwise. */
  lemma RemoveFirstIdIsDeletion(books: seq<Book>, id: int)
    ensures IsSubsequence(RemoveFirstId(books, id), books)
    ensures FirstIndexOfId(books, id).Some? ==> |RemoveFirstId(books, id)| == |books| - 1
    ensures FirstIndexOfId(books, id).None? ==> RemoveFirstId(books, id) == books
    ensures TitlesDistinct(books) ==> TitlesDistinct(RemoveFirstId(books, id))
  {
    match FirstIndexOfId(books, id)
    case None =>
      SubsequenceReflexive(books);
    case Some(i) =>
      SliceOutIsSubsequence(books, i);
    if TitlesDistinct(books) {
      SubsequenceKeepsTitlesDistinct(RemoveFirstId(books, id), books);
    }
  }

  /** When ids happen to be distinct, the removed id can no longer be found. */
  lemma RemovedIdIsGone(books: seq<Book>, id: int)
    requires IdsDistinct(books)
    ensures FirstIndexOfId(RemoveFirstId(books, id), id).None?
  {
    match FirstIndexOfId(books, id)
    case None =>
    case Some(i) =>
      var r := books[..i] + books[i + 1..];
      forall j | 0 <= j < |r| ensures r[j].id != id {
        if j < i {
          assert r[j] == books[j];
        } else {
          assert r[j] == books[j + 1];
        }
      }
  }

  /** The length-plus-one rule reuses an id after a deletion: adding "A" and
      "B", removing id 1 and adding "C" leaves two records with id 2, and
      removing id 2 then still leaves a record with id 2. */
  lemma IdReuseAfterRemove()
    ensures var b1 := Added(Added([], "A", "", 2000), "B", "", 2000);
            var b2 := Added(RemoveFirstId(b1, 1), "C", "", 2000);
            |b2| == 2 && b2[0].id == 2 && b2[1].id == 2 &&
            FirstIndexOfId(RemoveFirstId(b2, 2), 2).Some?
  {
  }

  // ---------------------------------------------------------------------------
  // Changing a status

  /** The catalog after a whitelisted change_status: the first record with this
      id gets the new status, or nothing changes when no record has it. */
  function ChangedStatus(books: seq<Book>, id: int, status: Status): (r: seq<Book>)
    ensures |r| == |books|
    ensures forall k :: 0 <= k < |books| ==>
      && r[k].id == books[k].id && r[k].title == books[k].title
      && r[k].author == books[k].author && r[k].year == books[k].year
    ensures forall k :: 0 <= k < |books| && FirstIndexOfId(books, id) != Some(k) ==> r[k] == books[k]
    ensures FirstIndexOfId(books, id).Some? ==> r[FirstIndexOfId(books, id).value].status == status
  {
    match FirstIndexOfId(books, id)
    case None => books
    case Some(i) => books[i := books[i].(status := status)]
  }

  /** A status change leaves every title in place, so distinct titles stay distinct. */
  lemma ChangedStatusKeepsTitlesDistinct(books: seq<Book>, id: int, status: Status)
    requires TitlesDistinct(books)
    ensures TitlesDistinct(ChangedStatus(books, id, status))
  {
  }

  // ---------------------------------------------------------------------------
  // Searching

  /** The search condition of search_books, with `lower` standing for Python's
      `str.lower`: the lowered query occurs in the lowered title or author, or
      the query is exactly the year written in decimal. */
  predicate Matches(b: Book, query: string, lower: string -> string)
    ensures query == b.title || query == b.author ==> Matches(b, query, lower)
    ensures query == IntToDecimal(b.year) ==> Matches(b, query, lower)
    ensures lower(query) == [] ==> Matches(b, query, lower)
  {
    Contains(lower(b.title), lower(query))
    || Contains(lower(b.author), lower(query))
    || query == IntToDecimal(b.year)
  }

  /** The records that match, in catalog order. */
  function Search(books: seq<Book>, query: string, lower: string -> string): (r: seq<Book>)
    ensures |r| <= |books|
    ensures forall b :: b in r ==> b in books && Matches(b, query, lower)
  {
    if books == [] then []
    else (if Matches(books[0], query, lower) then [books[0]] else []) + Search(books[1..], query, lower)
  }

  lemma {:induction false} SearchIsSubsequence(books: seq<Book>, query: string, lower: string -> string)
    ensures IsSubsequence(Search(books, query, lower), books)
    decreases |books|
  {
    if books != [] {
      SearchIsSubsequence(books[1..], query, lower);
      var r := Search(books, query, lower);
      if Matches(books[0], query, lower) {
        assert r[0] == books[0];
        assert r[1..] == Search(books[1..], query, lower);
      } else {
        assert r == Search(books[1..], query, lower);
      }
    }
  }

  /** Every matching record occurs in the result as often as in the catalog,
      and no other record occurs at all. */
  lemma {:induction false} SearchCounts(books: seq<Book>, query: string, lower: string -> string)
    ensures forall b :: multiset(Search(books, query, lower))[b]
                        == (if Matches(b, query, lower) then multiset(books)[b] else 0)
    decreases |books|
  {
    if books != [] {
      SearchCounts(books[1..], query, lower);
      assert books == [books[0]] + books[1..];
    }
  }

  /** A record is found by its exact title and by its year written in decimal. */
  lemma SearchFindsTitleAndYear(books: seq<Book>, i: nat, query: string, lower: string -> string)
    requires i < |books|
    requires query == books[i].title || query == IntToDecimal(books[i].year)
    ensures books[i] in Search(books, query, lower)
  {
    SearchCounts(books, query, lower);
    assert multiset(books)[books[i]] > 0;
  }

  /** The empty query is contained in every string, so it returns the whole catalog. */
  lemma {:induction false} SearchEmptyQuery(books: seq<Book>, lower: string -> string)
    requires lower("") == ""
    ensures Search(books, "", lower) == books
    decreases |books|
  {
    if books != [] {
      SearchEmptyQuery(books[1..], lower);
      assert Matches(books[0], "", lower);
    }
  }
}
