# Per-user book ownership, modelled in Dafny

The books application keeps a table of books for each registered user and comes
in two variants: one on FastAPI (`books_fastapi/app/main.py`) and one on Django
(`books_django/books/views.py`). Apart from framework glue, the only logic either
variant owns is **ownership and access control**:

- a user sees only the books they own;
- a new book always belongs to the user who created it, because the input has no
  owner field;
- only the owner may open, edit or delete a book.

The two variants refuse a non-owner differently. FastAPI answers with an explicit
403. Django redirects to the book list and changes nothing, and a refused delete
gets the same redirect as a successful one.

## What is modelled

- `schemas.dfy` (module `Schemas`): the record shapes of `schemas.py`.
  `BookCreate` carries only title, author and year. `Book` adds the id and the
  owner's id. `User` is an id and a username, with no password. `UserCreate` is a
  username and a password.
- `models.dfy` (module `Models`): the Django `Book` columns. Title and author
  hold at most 200 characters; the year is an unbounded integer. The module also
  gives the validation that `BookForm` derives from these columns.
- `store.dfy` (module `Store`): the persistence layer (`crud.*`, the Django ORM),
  which is not part of this model, written as map operations on a book table
  keyed by id and a user table keyed by username. The database's
  autoincrementing ids are two counters. `Consistent` is what the database keeps
  true:
  - every book is stored under its own id;
  - every book has one registered owner (a non-null foreign key);
  - no two accounts share an id.

  The authentication layer becomes `CurrentUser`: a session (a token's subject,
  or Django's session) names a username, which is looked up in the user table.
- `fastapi.dfy` (module `FastApi`) and `django.dfy` (module `Django`): each
  variant's handlers, given twice.
  - Pure functions (`RegisterOutcome`, `AddOutcome`, `OwnerPage`, `EditOutcome`,
    `DeleteOutcome`) map a store snapshot and a request to a reply and the next
    snapshot. `Handle` applies the current-user check first, and `Run` handles a
    sequence of requests.
  - A class `App` holds the book map, the user table and the id counters as
    fields. Its methods update these fields in place, one method per handler,
    and each method is proved equal to its function.

  Each variant has its own `Reply` type. FastAPI has `Forbidden`; Django has
  `RedirectToList` and no forbidden answer.
- `agreement.dfy` (module `Agreement`): for requests that Django's forms accept,
  both variants change the store in the same way and differ only in the reply.
  Where Django's forms refuse input, the variants differ: FastAPI stores a title
  or author over 200 characters, and it registers a user whom Django refuses for
  mismatched passwords or for failing Django's other checks.

The main properties proved are these:

- **Lists are filtered by owner.** The list contains exactly the current user's
  books.
- **Ownership cannot be forged.** A created book is owned by the caller.
- **Refused requests change nothing.** A refused edit or delete leaves the store
  unchanged. An owner's edit overwrites only title, author and year.
- **Deletes are exact.** An owner's delete removes exactly that book.
- **Registration refuses taken usernames.** Registering a taken username adds no
  account.
- **Other users cannot touch your books.** `OthersCannotTouch` works over any
  sequence of requests: requests made outside a user's sessions never add,
  change or remove a book that user owns.
- **Ownership is fixed.** `OwnerIsFixed`: a book that still exists after any
  sequence of requests has its original owner. Ids are modelled as never reused
  (see "## Left out").

### Decisions

- **Missing book id.** Neither variant checks for a missing id before the
  ownership test. FastAPI reads `user_id` from the `None` that `crud.get_book`
  returns (`books_fastapi/app/main.py:73-74`), and Django's `Book.objects.get`
  raises `DoesNotExist` (`books_django/books/views.py:53`, `:67`). Both fail
  before any write. The model makes this an explicit `NotFound` reply, checked
  before the ownership test, and the store is left unchanged. This matches what
  the source's exception does to the store.
- **Passwords.** A password is stored as a symbolic hash, `Hashed(secret)`.
  `Authenticate` compares a password only with that hash, and it gives the same
  answer for an unknown username and for a wrong password.
- **Django registration.** `RegisterForm` validity models two checks: the
  username is not taken, and the two passwords match. The rest of Django's
  `UserCreationForm` validation is a single boolean field, `otherChecksPass`.
  That covers username syntax and length, and the password validators.
- **Invalid Django forms.** Django's `add_book` creates nothing when the form is
  invalid (`books_django/books/views.py:42-49`).
- **Cascade.** `books_django/books/models.py:12` declares `on_delete=CASCADE`.
  `Django.DeleteUser` models it; no view calls it.
- **Book ids are natural numbers.** FastAPI's `book_id: int`
  (`books_fastapi/app/main.py:72`, `:79`, `:88`, `:95`) also admits negative
  ids. No book is ever stored under one, so such a request behaves like any
  missing id: `NotFound`, with the store unchanged.

## Model

| member | source | states |
|---|---|---|
| Schemas.FromCreate | books_fastapi/app/schemas.py:15-25 | a stored book carries exactly the submitted `BookBase` fields; its id and owner are the server's arguments, since `BookCreate` has neither field |
| Schemas.Overwrite | books_fastapi/app/schemas.py:15-21 | applying an update input replaces the `BookBase` fields and keeps the book's id and owner |
| Models.Clean | books_django/books/models.py:9-11 | a `BookForm` is valid iff title and author are present and at most 200 characters and the year is an integer; the cleaned data is the submitted data, and every book with those fields fits the columns |
| Store.GetBooks | books_fastapi/app/main.py:58 | the query returns exactly the stored books whose owner is the given user |
| Store.GetBook | books_fastapi/app/main.py:73 | the lookup finds a book iff one is stored under the id, and then it is that book |
| Store.CreateBook | books_fastapi/app/main.py:67-68 | the insert adds one key, the fresh id, holding the submitted fields and the given owner; every other book is unchanged |
| Store.UpdateBook | books_fastapi/app/main.py:83-84 | the update keeps the key set, replaces only title, author and year of that book, keeps its id and owner, and leaves every other book unchanged |
| Store.DeleteBook | books_fastapi/app/main.py:99 | the removal drops exactly that id and leaves every other book unchanged |
| Store.GetUserByUsername | books_fastapi/app/main.py:27 | the lookup finds an account iff the username is registered |
| Store.CreateUser | books_fastapi/app/main.py:30 | registration adds exactly one account under the new username, storing only the hash of the password; existing accounts are unchanged |
| Store.CurrentUser | books_fastapi/app/main.py:57 | the current-user dependency yields a user iff the session names a registered username, and then it is that account's public shape |
| Store.Authenticate | books_fastapi/app/main.py:39-41 | login succeeds iff the username is registered and the password matches its stored hash; an unknown name and a wrong password both fail |
| Store.CreateUserKeepsConsistent | books_fastapi/app/main.py:27-31 | registering an untaken username under the next id keeps usernames and user ids unique |
| Store.CreateBookKeepsConsistent | books_django/books/models.py:12 | inserting a book under the next id, owned by the current user, keeps every book owned by a registered user |
| Store.UserIdsGrow | books_django/books/models.py:12 | adding accounts never unregisters an owner |
| FastApi.RegisterOutcome | books_fastapi/app/main.py:25-31 | a taken username is refused with the store unchanged; otherwise exactly one account is added and the books are unchanged |
| FastApi.AddOutcome | books_fastapi/app/main.py:65-69 | one book is added under a fresh id with the submitted fields and the current user as owner; every existing book and the users are unchanged |
| FastApi.OwnerPage | books_fastapi/app/main.py:71-76 | the page is NotFound iff the id is missing, 403 iff the book exists and belongs to someone else, and shows the stored book iff the current user owns it |
| FastApi.EditOutcome | books_fastapi/app/main.py:78-85 | missing id gives NotFound and a non-owner gets 403, both with the store unchanged; the owner's submission always succeeds and overwrites only title, author and year of that book, keeping its owner and every other book |
| FastApi.DeleteOutcome | books_fastapi/app/main.py:94-100 | missing id gives NotFound and a non-owner gets 403, both with the store unchanged; the owner's request always succeeds and removes exactly that book |
| FastApi.Dispatch | books_fastapi/app/main.py:56-92 | for an authenticated user, the list and the two GET pages never change the store; the list holds exactly the user's books, and both pages answer with the same lookup and ownership test |
| FastApi.Handle | books_fastapi/app/main.py:25-100 | register runs without a login; any other request without a current user is refused (401) with the store unchanged; otherwise the request is handled for the resolved user |
| FastApi.HandleKeepsConsistent | books_fastapi/app/main.py:25-100 | every handled request keeps ids unique and every book owned by a registered user |
| FastApi.AddKeepsOthersBooks | books_fastapi/app/main.py:68 | a book added by one user is never another user's |
| FastApi.EditKeepsOthersBooks | books_fastapi/app/main.py:80-84 | an edit by a non-owner leaves that owner's books unchanged |
| FastApi.DeleteKeepsOthersBooks | books_fastapi/app/main.py:96-99 | a delete by a non-owner leaves that owner's books unchanged |
| FastApi.HandleKeepsOthersBooks | books_fastapi/app/main.py:71-100 | a request from any session but the user's own leaves that user's account and owned books exactly as they were |
| FastApi.Run | books_fastapi/app/main.py:56-100 | any sequence of requests leaves the store consistent |
| FastApi.OthersCannotTouch | books_fastapi/app/main.py:71-100 | no sequence of requests made outside a user's sessions adds, changes or removes any book that user owns |
| FastApi.HandleKeepsOwner | books_fastapi/app/main.py:83-84 | no request changes the owner of an existing book or brings back a removed id |
| FastApi.OwnerIsFixed | books_fastapi/app/main.py:65-100 | after any sequence of requests, a book that still exists has the owner it had before |
| FastApi.CreateThenEditPage | books_fastapi/app/main.py:65-76 | adding a book and then opening its edit page shows the submitted fields owned by the creator |
| FastApi.OtherUserDeleteScenario | books_fastapi/app/main.py:94-100 | after alice adds a book, bob's delete of it gets 403, changes nothing, and alice's list still holds the book |
| FastApi.RegisterThenAuthenticate | books_fastapi/app/main.py:25-41 | after registering, the same password authenticates and any other password is refused |
| FastApi.App.constructor | books_fastapi/app/main.py:19 | the store starts with no books and no users |
| FastApi.App.Register | books_fastapi/app/main.py:25-31 | the handler updates the user table in place exactly as `RegisterOutcome` says and keeps the store consistent |
| FastApi.App.BookList | books_fastapi/app/main.py:56-59 | the handler changes nothing and returns exactly the current user's books |
| FastApi.App.AddBook | books_fastapi/app/main.py:65-69 | the handler inserts in place exactly as `AddOutcome` says and keeps the store consistent |
| FastApi.App.EditBookPage | books_fastapi/app/main.py:71-76 | the handler changes nothing, answers as `OwnerPage`, and answers 403 iff the book belongs to someone else |
| FastApi.App.EditBook | books_fastapi/app/main.py:78-85 | the handler updates in place exactly as `EditOutcome` says and keeps the store consistent |
| FastApi.App.DeleteBookPage | books_fastapi/app/main.py:87-92 | the handler changes nothing, answers as `OwnerPage`, and answers 403 iff the book belongs to someone else |
| FastApi.App.DeleteBook | books_fastapi/app/main.py:94-100 | the handler removes in place exactly as `DeleteOutcome` says and keeps the store consistent |
| Django.RegisterOutcome | books_django/books/views.py:7-16 | a POST with a valid form (username untaken, passwords equal, other checks passed) adds exactly one account and redirects; anything else re-renders the form with the store unchanged |
| Django.AddOutcome | books_django/books/views.py:38-49 | a POST with a valid form adds one book under a fresh id with the cleaned fields and the requesting user as owner; a GET or an invalid form creates nothing |
| Django.EditOutcome | books_django/books/views.py:51-63 | missing id gives NotFound; a non-owner is redirected to the list with the store unchanged for GET and POST alike; the owner's valid POST overwrites only title, author and year and keeps the owner; the owner's GET or invalid POST renders the stored book unchanged |
| Django.DeleteOutcome | books_django/books/views.py:65-70 | missing id gives NotFound; otherwise the reply is always the redirect to the list; the owner's request removes exactly that book and a non-owner's changes nothing |
| Django.Dispatch | books_django/books/views.py:33-70 | for a logged-in user, the list never changes the store and holds exactly the user's books; a delete is handled the same way whatever its request method |
| Django.Handle | books_django/books/views.py:7-70 | register runs without a login; any other request without a logged-in user is redirected to the login page with the store unchanged; otherwise the request is handled for that user |
| Django.EditKeepsWellFormed | books_django/books/models.py:9-10 | an edit keeps every stored title and author within 200 characters |
| Django.DeleteKeepsWellFormed | books_django/books/views.py:65-70 | a delete keeps the store well formed |
| Django.HandleKeepsWellFormed | books_django/books/models.py:9-12 | every handled request keeps ids unique, every book owned by a registered user and every title and author within its column bound |
| Django.AddKeepsOthersBooks | books_django/books/views.py:43-45 | a book added by one user is never another user's |
| Django.EditKeepsOthersBooks | books_django/books/views.py:53-60 | an edit by a non-owner leaves that owner's books unchanged |
| Django.DeleteKeepsOthersBooks | books_django/books/views.py:67-69 | a delete by a non-owner leaves that owner's books unchanged |
| Django.HandleKeepsOthersBooks | books_django/books/views.py:33-70 | a request from any session but the user's own leaves that user's account and owned books exactly as they were |
| Django.Run | books_django/books/views.py:7-70 | any sequence of requests leaves the store well formed |
| Django.OthersCannotTouch | books_django/books/views.py:51-70 | no sequence of requests made outside a user's sessions adds, changes or removes any book that user owns |
| Django.HandleKeepsOwner | books_django/books/views.py:57-59 | no request changes the owner of an existing book or brings back a removed id |
| Django.OwnerIsFixed | books_django/books/models.py:12 | after any sequence of requests, a book that still exists has the owner it had before |
| Django.RefusedDeleteLooksLikeSuccess | books_django/books/views.py:67-70 | a non-owner's delete gets the same redirect as the owner's and changes nothing, while the owner's removes the book |
| Django.DeleteUser | books_django/books/models.py:12 | removing an account removes exactly the books it owns, and keeps every other account and book |
| Django.DeleteUserKeepsWellFormed | books_django/books/models.py:12 | after the cascade, every remaining book still has a registered owner |
| Django.App.constructor | books_django/books/models.py:8-12 | the store starts with no books and no users |
| Django.App.Register | books_django/books/views.py:7-16 | the view updates the user table in place exactly as `RegisterOutcome` says and keeps the store well formed |
| Django.App.BookList | books_django/books/views.py:33-36 | the view changes nothing and returns exactly the requesting user's books |
| Django.App.AddBook | books_django/books/views.py:38-49 | the view inserts in place exactly as `AddOutcome` says and keeps the store well formed |
| Django.App.EditBook | books_django/books/views.py:51-63 | the view updates in place exactly as `EditOutcome` says and keeps the store well formed |
| Django.App.DeleteBook | books_django/books/views.py:65-70 | the view removes in place exactly as `DeleteOutcome` says, whatever the request method, and keeps the store well formed |
| Agreement.SameEffectOnRegister | books_django/books/views.py:7-13 | registering with matching, accepted passwords changes the store exactly as the FastAPI handler does, and both refuse a taken username |
| Agreement.SameEffectOnAdd | books_django/books/views.py:40-46 | a validated book form adds the same book as the FastAPI handler |
| Agreement.SameEffectOnEdit | books_django/books/views.py:52-60 | a validated edit has the same store effect in both variants; where FastAPI answers 403, Django gives its success redirect |
| Agreement.SameEffectOnDelete | books_django/books/views.py:65-70 | a delete has the same store effect in both variants; where FastAPI answers 403, Django gives its success redirect |
| Agreement.VariantsDifferOnLongTitle | books_django/books/models.py:9 | a 201-character title is stored by FastAPI's add handler and refused by Django's form, which creates nothing |
| Agreement.VariantsDifferOnPasswordMismatch | books_django/books/views.py:8-16 | Django refuses a registration whose two passwords differ and changes nothing, while FastAPI, which takes one password, registers the user |

## Left out

- Templates, HTTP status codes, redirects and cookies. Each reply is reduced to
  a constructor of the variant's `Reply` type.
- The pages that only render a template: FastAPI's `register_page`,
  `login_page` and `add_book_page`.
- Sessions and tokens. JWT creation and expiry (`login`, `books_fastapi/app/main.py:37-48`),
  cookie removal (`logout`), and Django's `user_login`, `user_logout`, `login`
  and `logout` are foreign session machinery. A session is modelled only as the
  username it names (`Store.CurrentUser`), and login only as `Store.Authenticate`
  over a symbolic hash. `security.*` is not part of this model.
- Password hashing. The hash is symbolic, not a real one-way function.
- The internals of `crud.*`, the SQLAlchemy session and the Django ORM, which are
  not part of this model. They are replaced by the map operations in `Store`.
- FastAPI's request validation. A missing or unparsable form field gets a 422
  before any handler runs. The handlers take already-typed inputs.
- Django's form cleaning: whitespace stripping of `CharField` input, and the
  database's integer range for `year`. Neither is modelled; `year` is an
  unbounded `int`.
- Models.Clean: the length and presence checks apply to the text as submitted.
  Django applies them after stripping surrounding whitespace.
- Models.Clean: Django's `CharField` also rejects text containing the null
  character U+0000. The model accepts such a title or author.
- Django.EditOutcome: on an invalid POST, Django's form copies the valid fields
  onto the in-memory instance it renders. The model renders the stored book.
  The store is unchanged either way.
- Store.GetBooks: returns a set. The order of the query's rows is not modelled,
  and neither variant promises one.
- Store.CreateBook: book ids are modelled as a counter that is never reused.
  This is an assumption about the database. FastAPI's database and ORM model
  files are not part of this model, and SQLite without AUTOINCREMENT can reuse
  the highest deleted id. `FastApi.HandleKeepsOwner` and `FastApi.OwnerIsFixed`
  rely on this assumption; Django's SQLite backend declares AUTOINCREMENT.
- Concurrency and transactions. Each request is one atomic step; interleavings
  are not modelled.
- `books_django/books/urls.py` is a routing table with no logic.
- `books_django/books/forms.py` is configuration of Django's form classes. Its
  one relevant fact, that only title, author and year are editable, is captured
  by the `BookForm` and `BookCreate` input types.
