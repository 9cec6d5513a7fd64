/**
 * The record shapes of the books application (books_fastapi/app/schemas.py).
 * Both variants store the same book record; the Django model calls the owner
 * reference `user`, the FastAPI schema calls it `user_id`.
 */
module Schemas {

  /** `BookBase` / `BookCreate`: everything a create or update request may carry.
      There is no id and no owner field, so a client can choose neither. */
  datatype BookCreate = BookCreate(title: string, author: string, year: int)

  /** `Book`: the `BookBase` fields plus the id the store assigned and the owner's user id. */
  datatype Book = Book(id: nat, title: string, author: string, year: int, userId: nat)

  /** `UserCreate`: exactly a username and a password. */
  datatype UserCreate = UserCreate(username: string, password: string)

  /** `User`: the public shape of an account, its id and username; it has no password field. */
  datatype User = User(id: nat, username: string)

  /** The `BookBase` part of a stored book. */
  function Base(b: Book): BookCreate
  {
    BookCreate(b.title, b.author, b.year)
  }

  /** The row stored for a create request: the submitted fields, with the id and the
      owner supplied by the server. */
  function FromCreate(id: nat, input: BookCreate, userId: nat): (b: Book)
    ensures Base(b) == input
    ensures b.id == id && b.userId == userId
  {
    Book(id, input.title, input.author, input.year, userId)
  }

  /** A stored book after an update request: the submitted fields replace the
      `BookBase` part, and the id and the owner stay what they were. */
  function Overwrite(b: Book, input: BookCreate): (r: Book)
    ensures Base(r) == input
    ensures r.id == b.id && r.userId == b.userId
  {
    b.(title := input.title, author := input.author, year := input.year)
  }
}
