/**
 * The book screen: its duplicate-name check, add, edit, delete, the
 * search-and-category filter of the table and the category column's label.
 */
module Books {
  import opened Wrappers
  import opened Text
  import opened Lists
  import opened Catalog

  /** The id of the book open in the form, if any (`editingBook ? editingBook.id : null`). */
  function EditingId(editing: Option<Book>): Option<int> {
    if editing.Some? then Some(editing.value.id) else None
  }

  /**
   * The stored book `b` clashes with the input whose trimmed, lower-cased
   * name is `key`: its own name, lower-cased but not trimmed, equals `key`,
   * and it is not the book being edited.
   */
  predicate Clashes(b: Book, key: string, editingId: Option<int>) {
    Lower(b.name) == key && (editingId.None? || b.id != editingId.value)
  }

  /** The `books.some(...)` duplicate check run before a save. */
  function NameTaken(books: seq<Book>, name: string, editingId: Option<int>): (r: bool)
    ensures r <==> exists i :: 0 <= i < |books| && Lower(books[i].name) == Lower(Trim(name))
                                && (editingId.None? || books[i].id != editingId.value)
  {
    Any(books, (b: Book) => Clashes(b, Lower(Trim(name)), editingId))
  }

  /**
   * The edit: every book whose id is `id` becomes the form's values with
   * that id; every other book stays as it is, in its place.
   */
  function ReplaceBook(books: seq<Book>, id: int, values: BookForm): (r: seq<Book>)
    ensures |r| == |books|
    ensures forall i :: 0 <= i < |books| && books[i].id == id ==> r[i] == values.WithId(id)
    ensures forall i :: 0 <= i < |books| && books[i].id != id ==> r[i] == books[i]
    ensures forall i :: 0 <= i < |books| ==> r[i].id == books[i].id
  {
    Map(books, (b: Book) => if b.id == id then values.WithId(id) else b)
  }

  /** Editing the same book with the same values twice is editing it once. */
  lemma ReplaceBookIdempotent(books: seq<Book>, id: int, values: BookForm)
    ensures ReplaceBook(ReplaceBook(books, id, values), id, values) == ReplaceBook(books, id, values)
  {
    var once := ReplaceBook(books, id, values);
    var twice := ReplaceBook(once, id, values);
    forall i | 0 <= i < |books| ensures twice[i] == once[i] {
      assert once[i].id == books[i].id;
    }
  }

  /** What a save that passed the duplicate check does: edit the open book, or append a new one. */
  function ApplyBook(books: seq<Book>, editingId: Option<int>, values: BookForm, newId: int): seq<Book>
  {
    if editingId.Some? then ReplaceBook(books, editingId.value, values)
    else books + [values.WithId(newId)]
  }

  /**
   * `addOrUpdateBook` on the list: refused when the name is taken,
   * otherwise the edited or extended list.
   */
  function SaveBook(books: seq<Book>, editingId: Option<int>, values: BookForm, newId: int)
    : (r: Result<seq<Book>, Refusal>)
    ensures r.Err? <==> NameTaken(books, values.name, editingId)
    ensures r.Err? ==> r.error == DuplicateName
    ensures r.Ok? && editingId.None? ==>
      |r.value| == |books| + 1 && r.value[..|books|] == books && r.value[|books|] == values.WithId(newId)
    ensures r.Ok? && editingId.Some? ==>
      |r.value| == |books|
      && (forall i :: 0 <= i < |books| && books[i].id == editingId.value ==> r.value[i] == values.WithId(editingId.value))
      && (forall i :: 0 <= i < |books| && books[i].id != editingId.value ==> r.value[i] == books[i])
  {
    if NameTaken(books, values.name, editingId) then Err(DuplicateName)
    else Ok(ApplyBook(books, editingId, values, newId))
  }

  /**
   * Two names that differ only in case or surrounding white space cannot
   * both be added when the first one is typed without surrounding white
   * space (see `PaddedDuplicateAccepted` for what happens otherwise).
   */
  lemma SameNameAddedTwiceRefused(books: seq<Book>, first: BookForm, second: BookForm, id1: int, id2: int)
    requires IsTrimmed(first.name)
    requires Lower(Trim(first.name)) == Lower(Trim(second.name))
    ensures SaveBook(books, None, first, id1).Ok? ==>
              SaveBook(SaveBook(books, None, first, id1).value, None, second, id2) == Err(DuplicateName)
  {
    var r := SaveBook(books, None, first, id1);
    if r.Ok? {
      TrimOfTrimmed(first.name);
      assert r.value[|books|].name == first.name;
    }
  }

  /** No two books share an id. */
  ghost predicate IdsDistinct(books: seq<Book>) {
    Pairwise(books, (a: Book, b: Book) => a.id != b.id)
  }

  /** A save keeps ids distinct, provided a new book gets an id no book has yet. */
  lemma SaveBookKeepsIdsDistinct(books: seq<Book>, editingId: Option<int>, values: BookForm, newId: int)
    requires IdsDistinct(books)
    requires editingId.None? ==> forall b :: b in books ==> b.id != newId
    requires SaveBook(books, editingId, values, newId).Ok?
    ensures IdsDistinct(SaveBook(books, editingId, values, newId).value)
  {
    var r := SaveBook(books, editingId, values, newId).value;
    if editingId.None? {
      forall i, j | 0 <= i < j < |r| ensures r[i].id != r[j].id {
        if j == |books| {
          assert r[i] == books[i];
        } else {
          assert r[i] == books[i] && r[j] == books[j];
        }
      }
    } else {
      forall i, j | 0 <= i < j < |r| ensures r[i].id != r[j].id {
        assert r[i].id == books[i].id && r[j].id == books[j].id;
      }
    }
  }

  /**
   * `deleteBook`: the books whose id differs from `id`, in their order;
   * nothing else is removed.
   */
  function RemoveBook(books: seq<Book>, id: int): (r: seq<Book>)
    ensures IsSubsequence(r, books)
    ensures forall b :: b in r ==> b.id != id
    ensures forall b :: b in books && b.id != id ==> b in r
    ensures (forall b :: b in books ==> b.id != id) ==> r == books
    ensures forall b :: b in books ==> multiset(r)[b] == if b.id != id then multiset(books)[b] else 0
  {
    Filter(books, (b: Book) => b.id != id)
  }

  /**
   * A book being edited never clashes with itself: while editing `id`, the
   * check answers as if every book with that id had been removed.
   */
  lemma EditIgnoresItself(books: seq<Book>, name: string, id: int)
    ensures NameTaken(books, name, Some(id)) <==> NameTaken(RemoveBook(books, id), name, None)
  {
    var rest := RemoveBook(books, id);
    var key := Lower(Trim(name));
    if NameTaken(books, name, Some(id)) {
      var i :| 0 <= i < |books| && Lower(books[i].name) == key && books[i].id != id;
      assert books[i] in rest;
      var j :| 0 <= j < |rest| && rest[j] == books[i];
    }
    if NameTaken(rest, name, None) {
      var j :| 0 <= j < |rest| && Lower(rest[j].name) == key;
      assert rest[j] in rest;
      var i :| 0 <= i < |books| && books[i] == rest[j];
    }
  }

  /** Deleting a book twice is deleting it once. */
  lemma RemoveBookIdempotent(books: seq<Book>, id: int)
    ensures RemoveBook(RemoveBook(books, id), id) == RemoveBook(books, id)
  {
  }

  /** A delete keeps ids distinct. */
  lemma RemoveBookKeepsIdsDistinct(books: seq<Book>, id: int)
    requires IdsDistinct(books)
    ensures IdsDistinct(RemoveBook(books, id))
  {
    SubsequencePairwise(RemoveBook(books, id), books, (a: Book, b: Book) => a.id != b.id);
  }

  /** The search box: the book's lower-cased name contains the lower-cased term. */
  predicate MatchesSearch(b: Book, term: string) {
    Includes(Lower(b.name), Lower(term))
  }

  /**
   * The category select: a cleared select (`""` or `undefined`) and the
   * falsy id `0` filter nothing; any other id keeps only its own books.
   */
  predicate MatchesCategory(b: Book, filterCategory: Option<int>) {
    if filterCategory.Some? && filterCategory.value != 0 then b.categoryId == filterCategory.value else true
  }

  /** `filteredBooks`: the books the table shows, first filtered by name, then by category. */
  function FilterBooks(books: seq<Book>, term: string, filterCategory: Option<int>): (r: seq<Book>)
    ensures forall b :: b in r <==> b in books && MatchesSearch(b, term) && MatchesCategory(b, filterCategory)
    ensures forall b :: b in books ==>
              multiset(r)[b] == if MatchesSearch(b, term) && MatchesCategory(b, filterCategory) then multiset(books)[b] else 0
  {
    Filter(Filter(books, (b: Book) => MatchesSearch(b, term)), (b: Book) => MatchesCategory(b, filterCategory))
  }

  /** The table shows the matching books in the order they are stored. */
  lemma FilterBooksIsSubsequence(books: seq<Book>, term: string, filterCategory: Option<int>)
    ensures IsSubsequence(FilterBooks(books, term, filterCategory), books)
  {
    var byName := Filter(books, (b: Book) => MatchesSearch(b, term));
    SubsequenceTrans(FilterBooks(books, term, filterCategory), byName, books);
  }

  /** With an empty search and no category selected, the table shows every book, in order. */
  lemma FilterBooksIdentity(books: seq<Book>)
    ensures FilterBooks(books, "", None) == books
  {
    forall b | b in books ensures MatchesSearch(b, "") {
      IncludesEmpty(Lower(b.name));
    }
  }

  /**
   * The category column: the name of the first category with this id;
   * `"N/A"` when there is none, and also when that name is empty (`"" || "N/A"`).
   */
  function CategoryLabel(categories: seq<Category>, categoryId: int): (r: string)
    ensures (forall c :: c in categories ==> c.id != categoryId) ==> r == "N/A"
    ensures forall k :: 0 <= k < |categories| && categories[k].id == categoryId
                        && (forall j :: 0 <= j < k ==> categories[j].id != categoryId)
                        ==> r == (if categories[k].name == "" then "N/A" else categories[k].name)
  {
    match Find(categories, (c: Category) => c.id == categoryId)
    case None => "N/A"
    case Some(c) => if c.name == "" then "N/A" else c.name
  }

  /**
   * No price rule is applied (the rules sit under a misspelt key), so a
   * save with a zero or negative price is accepted and the price is stored.
   */
  lemma NonPositivePriceAccepted(books: seq<Book>, values: BookForm, newId: int)
    requires values.price <= 0.0
    requires !NameTaken(books, values.name, None)
    ensures SaveBook(books, None, values, newId).Ok?
    ensures SaveBook(books, None, values, newId).value[|books|].price == values.price
  {
  }

  /**
   * The book screen's state: the stored books, the categories it reads
   * for the select and the category column, and the book open in the form.
   */
  class BookScreen {
    var books: seq<Book>
    var categories: seq<Category>
    var editing: Option<Book>

    /** The screen as it mounts, from the lists read out of storage. */
    constructor (storedBooks: seq<Book>, storedCategories: seq<Category>)
      ensures books == storedBooks && categories == storedCategories && editing == None
    {
      books := storedBooks;
      categories := storedCategories;
      editing := None;
    }

    /** The "Sửa" button: the row's record becomes the book being edited. */
    method BeginEdit(record: Book)
      modifies this
      ensures editing == Some(record)
      ensures books == old(books) && categories == old(categories)
    {
      editing := Some(record);
    }

    /**
     * `resetForm`, run by the add button and by cancelling the dialog: no
     * book is open any more, so the next save adds a new book.
     */
    method CancelEdit()
      modifies this
      ensures editing == None && EditingId(editing) == None
      ensures books == old(books) && categories == old(categories)
    {
      editing := None;
    }

    /**
     * `addOrUpdateBook` after the form validated: a duplicate name leaves
     * everything as it was; otherwise the open book is replaced, or a new
     * book with `newId` is appended, and the form is reset.
     */
    method AddOrUpdateBook(values: BookForm, newId: int) returns (saved: bool)
      modifies this
      ensures saved <==> !NameTaken(old(books), values.name, EditingId(old(editing)))
      ensures !saved ==> books == old(books) && editing == old(editing)
      ensures saved && old(editing).None? ==> books == old(books) + [values.WithId(newId)]
      ensures saved && old(editing).Some? ==> books == ReplaceBook(old(books), old(editing).value.id, values)
      ensures saved ==> editing == None
      ensures categories == old(categories)
    {
      if NameTaken(books, values.name, EditingId(editing)) {
        saved := false;
        return;
      }
      if editing.Some? {
        books := ReplaceBook(books, editing.value.id, values);
      } else {
        books := books + [values.WithId(newId)];
      }
      editing := None;
      saved := true;
    }

    /** `deleteBook`: every book with this id is removed, the rest keep their order. */
    method DeleteBook(id: int)
      modifies this
      ensures books == RemoveBook(old(books), id)
      ensures categories == old(categories) && editing == old(editing)
    {
      books := RemoveBook(books, id);
    }
  }

  /** A form whose name carries a leading space. */
  function PaddedDune(): BookForm {
    BookForm(" Dune", "Herbert", 1, 20.0, None)
  }

  /**
   * As written, the duplicate check lower-cases the stored name without
   * trimming it, while the name is stored untrimmed: saving `" Dune"`
   * when `" Dune"` is already stored is accepted, leaving two books with
   * the very same name.
   */
  lemma PaddedDuplicateAccepted()
    ensures SaveBook([PaddedDune().WithId(1)], None, PaddedDune(), 2)
            == Ok([PaddedDune().WithId(1), PaddedDune().WithId(2)])
  {
    var v := PaddedDune();
    var stored := [v.WithId(1)];
    PaddedDuneDoesNotClash();
    assert stored + [v.WithId(2)] == [v.WithId(1), v.WithId(2)];
  }

  lemma PaddedDuneDoesNotClash()
    ensures !NameTaken([PaddedDune().WithId(1)], PaddedDune().name, None)
  {
    var name := PaddedDune().name;
    TrimPaddedDune();
    assert |Lower(Trim(name))| == 4 && |Lower(name)| == 5;
  }

  lemma TrimPaddedDune()
    ensures Trim(" Dune") == "Dune"
  {
    assert " Dune"[1..] == "Dune";
    assert !IsSpace('D') && !IsSpace('e');
    assert LeadingSpace(" Dune") == 1;
  }

  /** The name both sides of the corrected comparison are reduced to: trimmed, then lower-cased. */
  function Key(name: string): string {
    Lower(Trim(name))
  }

  /** No two books have the same name up to case and surrounding white space. */
  ghost predicate NamesDistinct(books: seq<Book>) {
    Pairwise(books, (a: Book, b: Book) => Key(a.name) != Key(b.name))
  }

  /** The corrected duplicate check: the stored name is trimmed too before it is compared. */
  function NameTakenNormalized(books: seq<Book>, name: string, editingId: Option<int>): (r: bool)
    ensures r <==> exists i :: 0 <= i < |books| && Key(books[i].name) == Key(name)
                                && (editingId.None? || books[i].id != editingId.value)
  {
    Any(books, (b: Book) => Key(b.name) == Key(name) && (editingId.None? || b.id != editingId.value))
  }

  /** The corrected save: same as `SaveBook` but with the corrected duplicate check. */
  function SaveBookNormalized(books: seq<Book>, editingId: Option<int>, values: BookForm, newId: int)
    : (r: Result<seq<Book>, Refusal>)
    ensures r.Err? <==> NameTakenNormalized(books, values.name, editingId)
    ensures r.Err? ==> r.error == DuplicateName
    ensures r.Ok? && editingId.None? ==>
      |r.value| == |books| + 1 && r.value[..|books|] == books && r.value[|books|] == values.WithId(newId)
    ensures r.Ok? && editingId.Some? ==>
      |r.value| == |books|
      && (forall i :: 0 <= i < |books| && books[i].id == editingId.value ==> r.value[i] == values.WithId(editingId.value))
      && (forall i :: 0 <= i < |books| && books[i].id != editingId.value ==> r.value[i] == books[i])
  {
    if NameTakenNormalized(books, values.name, editingId) then Err(DuplicateName)
    else Ok(ApplyBook(books, editingId, values, newId))
  }

  /**
   * A stored name that clashes under the as-written comparison has the same
   * key as the input: its lower-cased form equals a trimmed string, so it
   * was trimmed already.
   */
  lemma ClashMeansSameKey(stored: string, name: string)
    requires Lower(stored) == Lower(Trim(name))
    ensures Key(stored) == Key(name)
  {
    LowerKeepsTrimmed(Trim(name));
    LowerKeepsTrimmed(stored);
    TrimOfTrimmed(stored);
  }

  /** The corrected check refuses every name the as-written check refuses. */
  lemma NameTakenImpliesNormalized(books: seq<Book>, name: string, editingId: Option<int>)
    ensures NameTaken(books, name, editingId) ==> NameTakenNormalized(books, name, editingId)
  {
    if NameTaken(books, name, editingId) {
      var i :| 0 <= i < |books| && Lower(books[i].name) == Lower(Trim(name))
               && (editingId.None? || books[i].id != editingId.value);
      ClashMeansSameKey(books[i].name, name);
    }
  }

  /** Whenever the corrected save accepts, the as-written save accepts too and stores the same list. */
  lemma SaveBookNormalizedAgrees(books: seq<Book>, editingId: Option<int>, values: BookForm, newId: int)
    ensures SaveBookNormalized(books, editingId, values, newId).Ok? ==>
              SaveBook(books, editingId, values, newId) == SaveBookNormalized(books, editingId, values, newId)
  {
    NameTakenImpliesNormalized(books, values.name, editingId);
  }

  /**
   * On a list whose stored names carry no surrounding white space, the two
   * checks give the same answer: the discrepancy needs an untrimmed stored name.
   */
  lemma NameTakenAgreesOnTrimmedNames(books: seq<Book>, name: string, editingId: Option<int>)
    requires forall b :: b in books ==> IsTrimmed(b.name)
    ensures NameTaken(books, name, editingId) <==> NameTakenNormalized(books, name, editingId)
  {
    NameTakenImpliesNormalized(books, name, editingId);
    if NameTakenNormalized(books, name, editingId) {
      var i :| 0 <= i < |books| && Key(books[i].name) == Key(name)
               && (editingId.None? || books[i].id != editingId.value);
      TrimOfTrimmed(books[i].name);
    }
  }

  /**
   * With the corrected check, names stay unique up to case and white space
   * across every accepted save, given distinct ids and a fresh id for a new book.
   */
  lemma SaveBookNormalizedKeepsNamesDistinct(books: seq<Book>, editingId: Option<int>, values: BookForm, newId: int)
    requires IdsDistinct(books) && NamesDistinct(books)
    requires editingId.None? ==> forall b :: b in books ==> b.id != newId
    requires SaveBookNormalized(books, editingId, values, newId).Ok?
    ensures NamesDistinct(SaveBookNormalized(books, editingId, values, newId).value)
  {
    assert !NameTakenNormalized(books, values.name, editingId);
    if editingId.None? {
      AppendKeepsNamesDistinct(books, values, newId);
    } else {
      ReplaceKeepsNamesDistinct(books, editingId.value, values);
    }
  }

  lemma AppendKeepsNamesDistinct(books: seq<Book>, values: BookForm, newId: int)
    requires NamesDistinct(books)
    requires !NameTakenNormalized(books, values.name, None)
    ensures NamesDistinct(books + [values.WithId(newId)])
  {
    var r := books + [values.WithId(newId)];
    forall i, j | 0 <= i < j < |r| ensures Key(r[i].name) != Key(r[j].name) {
      assert r[i] == books[i];
      if j < |books| {
        assert r[j] == books[j];
      }
    }
  }

  lemma ReplaceKeepsNamesDistinct(books: seq<Book>, id: int, values: BookForm)
    requires IdsDistinct(books) && NamesDistinct(books)
    requires !NameTakenNormalized(books, values.name, Some(id))
    ensures NamesDistinct(ReplaceBook(books, id, values))
  {
    var r := ReplaceBook(books, id, values);
    forall i, j | 0 <= i < j < |r| ensures Key(r[i].name) != Key(r[j].name) {
      assert books[i].id != books[j].id;
      if books[i].id == id {
        assert r[i].name == values.name && r[j] == books[j];
      } else if books[j].id == id {
        assert r[j].name == values.name && r[i] == books[i];
      } else {
        assert r[i] == books[i] && r[j] == books[j];
      }
    }
  }
}
