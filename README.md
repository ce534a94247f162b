# Book and category catalog: a Dafny model of its data rules

The application is a browser-only catalog manager with two screens. The
category screen (`src/components/CategoryManagement.jsx`) adds, renames
and deletes categories. It refuses a delete while a book still refers to
the category. The book screen (`src/components/BookManagement.jsx`) adds,
edits and deletes books. It also filters the table by title and by
category, and shows each book's category name. Both screens refuse a
name that is already taken, ignoring case.

This project models the data rules of those two screens and proves what
they guarantee. Each screen keeps its list in component state and
replaces it on every change.

- `wrappers.dfy` (`Wrappers`): `Option` and `Result`.
- `text.dfy` (`Text`): `trim`, `toLowerCase` on ASCII letters, and
  `includes`.
- `lists.dfy` (`Lists`): the array methods the screens call (`filter`,
  `some`, `find`, `map`) on sequences, and what an order-preserving
  sub-sequence is.
- `catalog.dfy` (`Catalog`): the stored records `Book` and `Category`,
  the book form's values `BookForm`, and the reasons for a refusal.
- `books.dfy` (`Books`): the book screen.
- `categories.dfy` (`Categories`): the category screen.

Each screen appears twice. The pure functions (`SaveBook`, `RemoveBook`,
`FilterBooks`, `CategoryLabel`, `SaveCategory`, `DeleteCategory`) compute
the new list the way the handlers' `map`/`filter`/spread expressions do.
A class (`BookScreen`, `CategoryScreen`) holds the state the component
keeps: the list, and the record open in the form. Its methods replace
that state the way `setBooks` / `setCategories` do. `Date.now()` becomes
a `newId` parameter. The category delete takes the book list as a
parameter; the source reads it from browser storage.

In these places the code behaves differently from what a reader might
expect; the model follows the code:

- no positive-price rule is applied, because the rules are under the
  misspelt key `rrules`;
- book names are stored untrimmed, while category names are stored trimmed;
- ids are not guaranteed to be unique;
- the book duplicate check does not trim the stored name (see
  "## Findings").

## Model

| member | source | states |
|---|---|---|
| `Text.Trim` | src/components/BookManagement.jsx:54 | `trim()` returns a string with no white space at either end and is never longer than its input |
| `Text.TrimIsInfix` | src/components/BookManagement.jsx:54 | `trim()` returns a contiguous piece of the input; only white space comes before it and after it |
| `Text.TrimIdempotent` | src/components/CategoryManagement.jsx:50 | trimming a name a second time changes nothing |
| `Text.Lower` | src/components/BookManagement.jsx:54 | `toLowerCase()` keeps the length and maps every character in place: ASCII capitals to their small letters, everything else unchanged |
| `Text.LowerKeepsTrimmed` | src/components/BookManagement.jsx:54-55 | lower-casing a string neither adds nor removes white space at its ends, so a lower-cased string is trimmed exactly when the original is |
| `Text.Includes` | src/components/BookManagement.jsx:166 | `includes` holds exactly when the term occurs at some position of the text |
| `Text.IncludesEmpty` | src/components/BookManagement.jsx:166 | every name includes the empty search term |
| `Lists.Filter` | src/components/BookManagement.jsx:87 | `filter` returns an order-preserving sub-sequence; it keeps every element that passes the test and nothing else, each with as many copies as the input has; when every element passes, the input comes back unchanged |
| `Lists.Any` | src/components/BookManagement.jsx:52-56 | `some` holds exactly when some position satisfies the test |
| `Lists.Find` | src/components/BookManagement.jsx:121 | `find` returns nothing exactly when no element matches; otherwise it returns the first match |
| `Lists.Map` | src/components/BookManagement.jsx:66-70 | `map` keeps the length and applies the function at each position |
| `Lists.SubsequenceTrans` | src/components/BookManagement.jsx:164-170 | filtering the result of a filter still gives an order-preserving sub-sequence of the original |
| `Lists.SubsequencePairwise` | src/components/CategoryManagement.jsx:77 | dropping records never creates a clash between two of the records that remain |
| `Catalog.BookForm.WithId` | src/components/BookManagement.jsx:68 | `{...values, id}` carries every form field unchanged and adds the given id |
| `Books.NameTaken` | src/components/BookManagement.jsx:52-56 | a name is taken exactly when some stored book has a lower-cased, untrimmed name equal to the trimmed, lower-cased input and an id other than the edited book's |
| `Books.EditIgnoresItself` | src/components/BookManagement.jsx:55 | while editing `id`, the check answers as if every book with that id had been removed, so a book never clashes with itself |
| `Books.ReplaceBook` | src/components/BookManagement.jsx:65-71 | an edit keeps the length and every id; each book with the edited id becomes the form's values with that id; every other book stays in its place |
| `Books.ReplaceBookIdempotent` | src/components/BookManagement.jsx:66-70 | applying the same edit twice gives the same list as applying it once |
| `Books.SaveBook` | src/components/BookManagement.jsx:47-77 | the save is refused (as a duplicate) exactly when the name is taken; an add returns the old list with exactly one new record at the end; an edit keeps the length, changes only the records with the edited id, and leaves every other record in its place |
| `Books.SameNameAddedTwiceRefused` | src/components/BookManagement.jsx:52-61 | once a name typed without surrounding white space is stored, adding a name that equals it up to case and surrounding white space is refused |
| `Books.SaveBookKeepsIdsDistinct` | src/components/BookManagement.jsx:64-76 | an accepted save keeps the ids distinct, provided a new book's id is fresh |
| `Books.RemoveBook` | src/components/BookManagement.jsx:86-89 | a delete returns an order-preserving sub-sequence with no book of that id; every other book is kept with all its copies; deleting an absent id changes nothing |
| `Books.RemoveBookIdempotent` | src/components/BookManagement.jsx:86-89 | deleting twice is the same as deleting once |
| `Books.RemoveBookKeepsIdsDistinct` | src/components/BookManagement.jsx:87 | a delete keeps the ids distinct |
| `Books.FilterBooks` | src/components/BookManagement.jsx:164-170 | a book is shown exactly when it is stored, its lower-cased name contains the lower-cased term, and (when a non-zero category is selected) its `categoryId` equals the selection; every shown book appears as many times as it is stored |
| `Books.FilterBooksIsSubsequence` | src/components/BookManagement.jsx:164-170 | the table lists the matching books in their stored order |
| `Books.FilterBooksIdentity` | src/components/BookManagement.jsx:164-170 | with an empty term and no category selected, the table shows the whole list unchanged |
| `Books.CategoryLabel` | src/components/BookManagement.jsx:120-121 | the category column shows the name of the first category with the book's id; it shows `"N/A"` when there is no such category or its name is empty |
| `Books.NonPositivePriceAccepted` | src/components/BookManagement.jsx:256-266 | a save whose price is zero or negative is accepted, and that price is stored |
| `Books.BookScreen.constructor` | src/components/BookManagement.jsx:26-33 | the screen starts from the stored books and categories, with no book being edited |
| `Books.BookScreen.BeginEdit` | src/components/BookManagement.jsx:141-147 | the edit button makes the row's record the book being edited; nothing else changes |
| `Books.BookScreen.AddOrUpdateBook` | src/components/BookManagement.jsx:47-84 | on a taken name, the books and the edited book are unchanged; otherwise the new book list is appended or edited as `SaveBook` says, and the form is reset |
| `Books.BookScreen.CancelEdit` | src/components/BookManagement.jsx:42-45 | `resetForm` (add button and dialog cancel): no book is open for editing, so the next save adds a new book; the lists are unchanged |
| `Books.BookScreen.DeleteBook` | src/components/BookManagement.jsx:86-89 | the book list becomes `RemoveBook` of the old list; nothing else changes |
| `Books.PaddedDuplicateAccepted` | src/components/BookManagement.jsx:52-75 | with `" Dune"` stored, saving `" Dune"` again is accepted, leaving two books with the same name |
| `Books.NameTakenNormalized` | src/components/BookManagement.jsx:52-56 | corrected check: a name is taken exactly when another book's trimmed, lower-cased name equals the input's |
| `Books.SaveBookNormalized` | src/components/BookManagement.jsx:47-77 | corrected save: refused with `DuplicateName` exactly when the corrected check finds a clash; otherwise a new book is appended at the end, or every book with the edited id takes the form's values in its place while all others stay put |
| `Books.ClashMeansSameKey` | src/components/BookManagement.jsx:52-56 | a stored name that clashes under the as-written comparison has the same trimmed, lower-cased key as the input |
| `Books.NameTakenImpliesNormalized` | src/components/BookManagement.jsx:52-56 | the corrected check refuses every name the as-written check refuses |
| `Books.SaveBookNormalizedAgrees` | src/components/BookManagement.jsx:47-77 | whenever the corrected save accepts, the as-written save accepts with the same resulting list |
| `Books.NameTakenAgreesOnTrimmedNames` | src/components/BookManagement.jsx:52-56 | when no stored name has surrounding white space, the as-written and corrected checks give the same answer |
| `Books.SaveBookNormalizedKeepsNamesDistinct` | src/components/BookManagement.jsx:52-76 | with the corrected check, names stay unique up to case and surrounding white space after every accepted save (given distinct ids and a fresh new id) |
| `Categories.NameTaken` | src/components/CategoryManagement.jsx:29-33 | a name is taken exactly when some category has a lower-cased name equal to the trimmed, lower-cased input and an id other than the edited category's |
| `Categories.RenameCategory` | src/components/CategoryManagement.jsx:47-53 | a rename keeps the length and every id; only categories with the edited id change, and only their name; every other category stays in its place |
| `Categories.SaveCategory` | src/components/CategoryManagement.jsx:27-60 | the save is refused (as a duplicate) exactly when the name is taken; an add appends exactly `{id: newId, name: trim(input)}`; a rename changes only the edited id's names, to the trimmed input |
| `Categories.SameNameAddedTwiceRefused` | src/components/CategoryManagement.jsx:29-58 | two names that differ only in case or surrounding white space cannot both be added |
| `Categories.NameTakenOnTrimmedNames` | src/components/CategoryManagement.jsx:29-58 | on a list of trimmed, unique names, the check compares trimmed names on both sides |
| `Categories.SaveCategoryKeepsWellFormed` | src/components/CategoryManagement.jsx:27-60 | an accepted save keeps the names trimmed and keeps ids and lower-cased names unique (given a fresh new id) |
| `Categories.IsReferenced` | src/components/CategoryManagement.jsx:72 | holds exactly when some book's `categoryId` is the id |
| `Categories.RemoveCategory` | src/components/CategoryManagement.jsx:77 | returns an order-preserving sub-sequence with no category of that id; every other category is kept with all its copies; an absent id changes nothing |
| `Categories.DeleteCategory` | src/components/CategoryManagement.jsx:70-79 | the delete is refused exactly when some book refers to the id; a delete that goes through leaves no book with that `categoryId` and removes exactly the categories with that id, keeping every other category with all its copies, in order |
| `Categories.DeleteCategoryKeepsWellFormed` | src/components/CategoryManagement.jsx:76-78 | a delete that goes through keeps the list well-formed |
| `Categories.DeleteCategoryKeepsReferences` | src/components/CategoryManagement.jsx:70-79 | if every book's category exists, it still exists after any delete that goes through |
| `Categories.FictionScenario` | src/components/CategoryManagement.jsx:70-79 | deleting category 1 while book 10 refers to it is refused; with no books, the same delete empties the list |
| `Categories.CategoryScreen.constructor` | src/components/CategoryManagement.jsx:10-13 | the screen starts from the stored categories, with none being edited |
| `Categories.CategoryScreen.HandleEditCategory` | src/components/CategoryManagement.jsx:65-68 | the row's record becomes the category being edited; the list is unchanged |
| `Categories.CategoryScreen.HandleSaveCategory` | src/components/CategoryManagement.jsx:27-63 | on a taken name, the list and the edited category are unchanged; otherwise the trimmed name is appended or the edited category is renamed, and the form is reset |
| `Categories.CategoryScreen.HandleDeleteCategory` | src/components/CategoryManagement.jsx:70-80 | refused, with nothing changed, exactly when some book refers to the id; otherwise the list becomes `RemoveCategory` of the old list |

## Left out

- Rendering is not modelled: tables, modals, `Popconfirm`, toast messages and form layout. This is presentation only.
- The image upload widget and its `setTimeout` request are not modelled: asynchronous UI glue. The image is an opaque optional string.
- Browser storage is not modelled: the `localStorage` reads and writes, `JSON.parse` / `JSON.stringify`, and the effect that re-reads categories on mount. These are I/O. Lists are passed in and returned.
- `Date.now()` is not modelled: it is a clock. New ids are parameters, and freshness is a stated precondition wherever a proof needs it.
- The form's `required` rules are not modelled: they run in the form library before the handlers do. The model takes the values the form hands over.
- The category delete reads the books from storage, so the model passes them in. Whether that stored copy is current is not modelled.
- `toLowerCase` changes only ASCII letters here. Unicode case mapping is not modelled. `trim` removes the full JavaScript white-space set.
- The price is a `real` that nothing inspects. The text that a number input yields at run time is not modelled.
- Ids are unbounded integers: JavaScript's floating-point numbers are not modelled.
- `Books.CategoryLabel`, `Books.FilterBooks`: JavaScript `===` between ids of different runtime types (number and string) is not modelled; all ids are integers.
- `src/App.jsx` is not part of this model: it only switches views. `src/components/SearchAndFilter.jsx` is not part of this model either: it only renders the two inputs.

## Findings

| source | as written | input that shows it | evidently intended | confidence | as-written member | corrected member |
|---|---|---|---|---|---|---|
| src/components/BookManagement.jsx:52-56 | the stored name is lower-cased but not trimmed before it is compared with the trimmed input, and names are stored untrimmed (line 75) | a book named `" Dune"` is stored; adding `" Dune"` again is accepted and the list holds two books with the same name | trim and lower-case both sides (the category screen gets the same effect by storing names trimmed), so names stay unique up to case and surrounding white space | medium, not executed | `Books.PaddedDuplicateAccepted` | `Books.SaveBookNormalizedKeepsNamesDistinct` |

The screen model (`Books.BookScreen`) keeps the check as written, because
that is what the application does. The corrected save
`Books.SaveBookNormalized` is proved separately.
