/**
 * The category screen: its duplicate-name check, add, rename, and the
 * delete that is refused while some book still refers to the category.
 */
module Categories {
  import opened Wrappers
  import opened Text
  import opened Lists
  import opened Catalog

  /** The id of the category open in the form, if any (`editingCategory ? editingCategory.id : null`). */
  function EditingId(editing: Option<Category>): Option<int> {
    if editing.Some? then Some(editing.value.id) else None
  }

  /** The `categories.some(...)` duplicate check run before a save. */
  function NameTaken(categories: seq<Category>, name: string, editingId: Option<int>): (r: bool)
    ensures r <==> exists i :: 0 <= i < |categories| && Lower(categories[i].name) == Lower(Trim(name))
                                && (editingId.None? || categories[i].id != editingId.value)
  {
    Any(categories, (c: Category) => Lower(c.name) == Lower(Trim(name))
                                     && (editingId.None? || c.id != editingId.value))
  }

  /**
   * The rename: every category whose id is `id` gets the new name and
   * keeps its id; every other category stays as it is, in its place.
   */
  function RenameCategory(categories: seq<Category>, id: int, name: string): (r: seq<Category>)
    ensures |r| == |categories|
    ensures forall i :: 0 <= i < |categories| ==> r[i].id == categories[i].id
    ensures forall i :: 0 <= i < |categories| && categories[i].id == id ==> r[i].name == name
    ensures forall i :: 0 <= i < |categories| && categories[i].id != id ==> r[i] == categories[i]
  {
    Map(categories, (c: Category) => if c.id == id then c.(name := name) else c)
  }

  /** What a save that passed the duplicate check does: rename the open category, or append a new one. */
  function ApplyCategory(categories: seq<Category>, editingId: Option<int>, name: string, newId: int)
    : seq<Category>
  {
    if editingId.Some? then RenameCategory(categories, editingId.value, Trim(name))
    else categories + [Category(newId, Trim(name))]
  }

  /**
   * `handleSaveCategory` on the list: refused when the name is taken,
   * otherwise the renamed or extended list, with the name stored trimmed.
   */
  function SaveCategory(categories: seq<Category>, editingId: Option<int>, name: string, newId: int)
    : (r: Result<seq<Category>, Refusal>)
    ensures r.Err? <==> NameTaken(categories, name, editingId)
    ensures r.Err? ==> r.error == DuplicateName
    ensures r.Ok? && editingId.None? ==>
      |r.value| == |categories| + 1 && r.value[..|categories|] == categories
      && r.value[|categories|] == Category(newId, Trim(name))
    ensures r.Ok? && editingId.Some? ==>
      |r.value| == |categories|
      && (forall i :: 0 <= i < |categories| ==> r.value[i].id == categories[i].id)
      && (forall i :: 0 <= i < |categories| && categories[i].id == editingId.value ==> r.value[i].name == Trim(name))
      && (forall i :: 0 <= i < |categories| && categories[i].id != editingId.value ==> r.value[i] == categories[i])
    ensures r.Ok? ==> forall c :: c in r.value && c !in categories ==> c.name == Trim(name)
  {
    if NameTaken(categories, name, editingId) then Err(DuplicateName)
    else Ok(ApplyCategory(categories, editingId, name, newId))
  }

  /**
   * Two names that differ only in case or surrounding white space cannot
   * both be added: once the first is stored, the second is refused.
   */
  lemma SameNameAddedTwiceRefused(categories: seq<Category>, first: string, second: string, id1: int, id2: int)
    requires Lower(Trim(first)) == Lower(Trim(second))
    requires SaveCategory(categories, None, first, id1).Ok?
    ensures SaveCategory(SaveCategory(categories, None, first, id1).value, None, second, id2) == Err(DuplicateName)
  {
    var after := SaveCategory(categories, None, first, id1).value;
    TrimIdempotent(first);
    assert after[|categories|] == Category(id1, Trim(first));
  }

  /** Two categories differ in id and in lower-cased name. */
  predicate Apart(c: Category, d: Category) {
    c.id != d.id && Lower(c.name) != Lower(d.name)
  }

  /**
   * The list as the screen keeps it: names stored trimmed, no two
   * categories sharing an id or a name up to case.
   */
  ghost predicate WellFormed(categories: seq<Category>) {
    (forall c :: c in categories ==> IsTrimmed(c.name))
    && Pairwise(categories, Apart)
  }

  /** On a well-formed list, the check compares trimmed names on both sides. */
  lemma NameTakenOnTrimmedNames(categories: seq<Category>, name: string, editingId: Option<int>)
    requires WellFormed(categories)
    ensures NameTaken(categories, name, editingId) <==>
      exists i :: 0 <= i < |categories| && Lower(Trim(categories[i].name)) == Lower(Trim(name))
                  && (editingId.None? || categories[i].id != editingId.value)
  {
    forall i | 0 <= i < |categories| ensures Trim(categories[i].name) == categories[i].name {
      assert categories[i] in categories;
      TrimOfTrimmed(categories[i].name);
    }
  }

  /**
   * Every accepted save keeps the list well-formed, provided a new
   * category gets an id no category has yet (the time stamp does not
   * promise that).
   */
  lemma SaveCategoryKeepsWellFormed(categories: seq<Category>, editingId: Option<int>, name: string, newId: int)
    requires WellFormed(categories)
    requires editingId.None? ==> forall c :: c in categories ==> c.id != newId
    requires SaveCategory(categories, editingId, name, newId).Ok?
    ensures WellFormed(SaveCategory(categories, editingId, name, newId).value)
  {
    assert !NameTaken(categories, name, editingId);
    TrimIdempotent(name);
    if editingId.None? {
      AppendKeepsWellFormed(categories, name, newId);
    } else {
      RenameKeepsWellFormed(categories, editingId.value, name);
    }
  }

  lemma AppendKeepsWellFormed(categories: seq<Category>, name: string, newId: int)
    requires WellFormed(categories)
    requires forall c :: c in categories ==> c.id != newId
    requires !NameTaken(categories, name, None)
    ensures WellFormed(categories + [Category(newId, Trim(name))])
  {
    var r := categories + [Category(newId, Trim(name))];
    forall i, j | 0 <= i < j < |r| ensures Apart(r[i], r[j]) {
      assert r[i] == categories[i] && categories[i] in categories;
      if j < |categories| {
        assert r[j] == categories[j];
      }
    }
  }

  lemma RenameKeepsWellFormed(categories: seq<Category>, id: int, name: string)
    requires WellFormed(categories)
    requires !NameTaken(categories, name, Some(id))
    ensures WellFormed(RenameCategory(categories, id, Trim(name)))
  {
    var r := RenameCategory(categories, id, Trim(name));
    forall c | c in r ensures IsTrimmed(c.name) {
      var i :| 0 <= i < |r| && r[i] == c;
      assert categories[i] in categories;
    }
    forall i, j | 0 <= i < j < |r| ensures Apart(r[i], r[j]) {
      assert Apart(categories[i], categories[j]);
      if categories[i].id == id {
        assert r[j] == categories[j];
      } else if categories[j].id == id {
        assert r[i] == categories[i];
      } else {
        assert r[i] == categories[i] && r[j] == categories[j];
      }
    }
  }

  /** Whether some book's `categoryId` is `id` (the `books.some(...)` guard). */
  function IsReferenced(books: seq<Book>, id: int): (r: bool)
    ensures r <==> exists b :: b in books && b.categoryId == id
  {
    var r := Any(books, (b: Book) => b.categoryId == id);
    assert forall b :: b in books ==> exists i :: 0 <= i < |books| && books[i] == b;
    r
  }

  /** The filter of a permitted delete: every category with this id goes, the rest keep their order. */
  function RemoveCategory(categories: seq<Category>, id: int): (r: seq<Category>)
    ensures IsSubsequence(r, categories)
    ensures forall c :: c in r ==> c.id != id
    ensures forall c :: c in categories && c.id != id ==> c in r
    ensures (forall c :: c in categories ==> c.id != id) ==> r == categories
    ensures forall c :: c in categories ==> multiset(r)[c] == if c.id != id then multiset(categories)[c] else 0
  {
    Filter(categories, (c: Category) => c.id != id)
  }

  /**
   * `handleDeleteCategory`, with the book list passed in: refused exactly
   * when some book refers to the category, otherwise the category is removed.
   */
  function DeleteCategory(categories: seq<Category>, id: int, books: seq<Book>)
    : (r: Result<seq<Category>, Refusal>)
    ensures r.Err? <==> exists b :: b in books && b.categoryId == id
    ensures r.Err? ==> r.error == CategoryInUse
    ensures r.Ok? ==> forall b :: b in books ==> b.categoryId != id
    ensures r.Ok? ==> IsSubsequence(r.value, categories)
    ensures r.Ok? ==> (forall c :: c in r.value ==> c.id != id)
                      && (forall c :: c in categories && c.id != id ==> c in r.value)
    ensures r.Ok? ==> forall c :: c in categories ==>
                        multiset(r.value)[c] == if c.id != id then multiset(categories)[c] else 0
  {
    if IsReferenced(books, id) then Err(CategoryInUse) else Ok(RemoveCategory(categories, id))
  }

  /** A permitted delete keeps the list well-formed. */
  lemma DeleteCategoryKeepsWellFormed(categories: seq<Category>, id: int, books: seq<Book>)
    requires WellFormed(categories)
    requires DeleteCategory(categories, id, books).Ok?
    ensures WellFormed(DeleteCategory(categories, id, books).value)
  {
    var r := DeleteCategory(categories, id, books).value;
    SubsequencePairwise(r, categories, Apart);
    SubsequenceMembers(r, categories);
  }

  /** Every book's `categoryId` names a stored category. */
  ghost predicate ReferencesResolve(categories: seq<Category>, books: seq<Book>) {
    forall b :: b in books ==> exists c :: c in categories && c.id == b.categoryId
  }

  /**
   * Referential integrity: when every book's category exists, it still
   * exists after any delete the guard lets through.
   */
  lemma DeleteCategoryKeepsReferences(categories: seq<Category>, id: int, books: seq<Book>)
    requires ReferencesResolve(categories, books)
    requires DeleteCategory(categories, id, books).Ok?
    ensures ReferencesResolve(DeleteCategory(categories, id, books).value, books)
  {
    var r := DeleteCategory(categories, id, books).value;
    forall b | b in books ensures exists c :: c in r && c.id == b.categoryId {
      var c :| c in categories && c.id == b.categoryId;
      assert c.id != id;
      assert c in r;
    }
  }

  /**
   * Fiction (id 1) holds Dune (id 10): deleting Fiction is refused; once
   * Dune is gone the same delete empties the list.
   */
  lemma FictionScenario()
    ensures DeleteCategory([Category(1, "Fiction")], 1, [Book(10, "Dune", "Herbert", 1, 20.0, None)])
            == Err(CategoryInUse)
    ensures DeleteCategory([Category(1, "Fiction")], 1, []) == Ok([])
  {
    var books := [Book(10, "Dune", "Herbert", 1, 20.0, None)];
    assert books[0] in books;
    var r := DeleteCategory([Category(1, "Fiction")], 1, []).value;
    assert forall c :: c in r ==> c in [Category(1, "Fiction")] && c.id != 1;
  }

  /**
   * The category screen's state: the stored categories and the category
   * open in the form.
   */
  class CategoryScreen {
    var categories: seq<Category>
    var editing: Option<Category>

    /** The screen as it mounts, from the list read out of storage. */
    constructor (stored: seq<Category>)
      ensures categories == stored && editing == None
    {
      categories := stored;
      editing := None;
    }

    /** `handleEditCategory`: the row's record becomes the category being edited. */
    method HandleEditCategory(record: Category)
      modifies this
      ensures editing == Some(record) && categories == old(categories)
    {
      editing := Some(record);
    }

    /**
     * `handleSaveCategory`: a duplicate name leaves everything as it was;
     * otherwise the open category is renamed, or a new one with `newId`
     * is appended, and the form is reset.
     */
    method HandleSaveCategory(name: string, newId: int) returns (saved: bool)
      modifies this
      ensures saved <==> !NameTaken(old(categories), name, EditingId(old(editing)))
      ensures !saved ==> categories == old(categories) && editing == old(editing)
      ensures saved && old(editing).None? ==> categories == old(categories) + [Category(newId, Trim(name))]
      ensures saved && old(editing).Some? ==>
        categories == RenameCategory(old(categories), old(editing).value.id, Trim(name))
      ensures saved ==> editing == None
    {
      if NameTaken(categories, name, EditingId(editing)) {
        saved := false;
        return;
      }
      if editing.Some? {
        categories := RenameCategory(categories, editing.value.id, Trim(name));
      } else {
        categories := categories + [Category(newId, Trim(name))];
      }
      editing := None;
      saved := true;
    }

    /**
     * `handleDeleteCategory`, given the stored books: refused, with nothing
     * changed, while a book refers to `id`; otherwise the category is removed.
     */
    method HandleDeleteCategory(id: int, books: seq<Book>) returns (deleted: bool)
      modifies this
      ensures deleted <==> !(exists b :: b in books && b.categoryId == id)
      ensures !deleted ==> categories == old(categories)
      ensures deleted ==> categories == RemoveCategory(old(categories), id)
      ensures editing == old(editing)
    {
      var r := DeleteCategory(categories, id, books);
      if r.Err? {
        deleted := false;
        return;
      }
      categories := r.value;
      deleted := true;
    }
  }
}
