/**
 * The records both screens keep in browser storage under the keys
 * `books` and `categories`, and the ways a save or a delete is refused.
 */
module Catalog {
  import opened Wrappers

  /** A category: `{id, name}`. The id is the creation time in milliseconds. */
  datatype Category = Category(id: int, name: string)

  /**
   * A book: `{id, name, author, categoryId, price, image?}`. The price is
   * whatever the form produced; nothing checks that it is positive.
   */
  datatype Book = Book(id: int, name: string, author: string, categoryId: int,
                       price: real, image: Option<string>)

  /** The values the book form hands over: every field of a book but its id. */
  datatype BookForm = BookForm(name: string, author: string, categoryId: int,
                               price: real, image: Option<string>)
  {
    /** `{ ...values, id }`: the form's values as a stored book with the given id. */
    function WithId(id: int): (b: Book)
      ensures b.id == id && b.name == name && b.author == author
      ensures b.categoryId == categoryId && b.price == price && b.image == image
    {
      Book(id, name, author, categoryId, price, image)
    }
  }

  /** Why a save or a delete is refused. */
  datatype Refusal =
    | DuplicateName   // another record already has this name, ignoring case
    | CategoryInUse   // some book still refers to the category
}
