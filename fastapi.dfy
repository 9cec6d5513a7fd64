/**
 * The FastAPI variant (books_fastapi/app/main.py): its handlers' ownership checks
 * and store effects. A non-owner is refused with an explicit 403.
 *
 * The handlers are given twice: as pure functions from a store snapshot to a
 * reply and the next snapshot (the reference semantics, about which the
 * properties are proved), and as the methods of `App`, a store object that the
 * handlers update in place, each proved equal to its function.
 */
module FastApi {

  import opened Wrappers
  import opened Schemas
  import opened Store

  /** What a handler answers, with templates, status codes and redirects reduced
      to the kind of answer. */
  datatype Reply =
    | Done                       // 303 redirect after the change was made
    | Page(book: Book)           // the edit or delete page, rendered for the owner
    | Listing(books: set<Book>)  // the book list page
    | Forbidden                  // HTTPException with status 403
    | NotFound                   // no book has the requested id
    | UsernameExists             // the register page again, with its error
    | Unauthorized               // the current-user dependency refused the request

  /** The requests that reach the modelled handlers, with their form fields. */
  datatype Request =
    | RegisterRequest(form: UserCreate)                  // POST /register
    | ListRequest                                        // GET /
    | AddRequest(input: BookCreate)                      // POST /add
    | EditPageRequest(bookId: nat)                       // GET /edit/{book_id}
    | EditRequest(bookId: nat, input: BookCreate)        // POST /edit/{book_id}
    | DeletePageRequest(bookId: nat)                     // GET /delete/{book_id}
    | DeleteRequest(bookId: nat)                         // POST /delete/{book_id}

  /** `register`: refuse a taken username; otherwise add exactly one account. */
  function RegisterOutcome(db: Db, form: UserCreate): (out: (Reply, Db))
    ensures out.0 == UsernameExists <==> form.username in db.users
    ensures out.0 == UsernameExists ==> out.1 == db
    ensures out.0 != UsernameExists ==>
      && out.0 == Done
      && out.1.users.Keys == db.users.Keys + {form.username}
      && out.1.users[form.username] == Account(db.nextUserId, form.username, Hashed(form.password))
      && (forall n :: n in db.users ==> out.1.users[n] == db.users[n])
      && out.1.books == db.books && out.1.nextBookId == db.nextBookId
  {
    match GetUserByUsername(db.users, form.username)
    case Some(_) => (UsernameExists, db)
    case None =>
      (Done, db.(users := CreateUser(db.users, db.nextUserId, form), nextUserId := db.nextUserId + 1))
  }

  /** `add_book`: insert one book with the submitted fields under the next id,
      owned by the current user; the owner never comes from the input. */
  function AddOutcome(db: Db, user: User, input: BookCreate): (out: (Reply, Db))
    requires Consistent(db)
    ensures out.0 == Done
    ensures out.1.books.Keys == db.books.Keys + {db.nextBookId} && db.nextBookId !in db.books
    ensures out.1.books[db.nextBookId] == FromCreate(db.nextBookId, input, user.id)
    ensures forall id :: id in db.books ==> out.1.books[id] == db.books[id]
    ensures out.1.users == db.users && out.1.nextUserId == db.nextUserId
  {
    (Done, db.(books := CreateBook(db.books, db.nextBookId, input, user.id), nextBookId := db.nextBookId + 1))
  }

  /** `edit_book_page` and `delete_book_page`: look the book up, then show it to its
      owner only. Neither page changes the store. */
  function OwnerPage(db: Db, user: User, bookId: nat): (r: Reply)
    ensures r == NotFound <==> bookId !in db.books
    ensures r == Forbidden <==> bookId in db.books && db.books[bookId].userId != user.id
    ensures r.Page? <==> bookId in db.books && db.books[bookId].userId == user.id
    ensures r.Page? ==> r.book == db.books[bookId]
  {
    match GetBook(db.books, bookId)
    case None => NotFound
    case Some(book) => if book.userId != user.id then Forbidden else Page(book)
  }

  /** `edit_book`: look the book up, refuse a non-owner before anything is written,
      then overwrite title, author and year; the owner and every other book stay. */
  function EditOutcome(db: Db, user: User, bookId: nat, input: BookCreate): (out: (Reply, Db))
    ensures out.0 == NotFound <==> bookId !in db.books
    ensures out.0 == Forbidden <==> bookId in db.books && db.books[bookId].userId != user.id
    ensures bookId in db.books && db.books[bookId].userId == user.id ==> out.0 == Done
    ensures out.0 != Done ==> out.1 == db
    ensures out.0 == Done ==>
      && out.1 == db.(books := out.1.books)
      && out.1.books.Keys == db.books.Keys
      && Base(out.1.books[bookId]) == input
      && out.1.books[bookId].id == db.books[bookId].id && out.1.books[bookId].userId == user.id
      && (forall id :: id in db.books && id != bookId ==> out.1.books[id] == db.books[id])
  {
    match GetBook(db.books, bookId)
    case None => (NotFound, db)
    case Some(book) =>
      if book.userId != user.id then (Forbidden, db)
      else (Done, db.(books := UpdateBook(db.books, bookId, input)))
  }

  /** `delete_book`: look the book up, refuse a non-owner, then remove exactly that book. */
  function DeleteOutcome(db: Db, user: User, bookId: nat): (out: (Reply, Db))
    ensures out.0 == NotFound <==> bookId !in db.books
    ensures out.0 == Forbidden <==> bookId in db.books && db.books[bookId].userId != user.id
    ensures bookId in db.books && db.books[bookId].userId == user.id ==> out.0 == Done
    ensures out.0 != Done ==> out.1 == db
    ensures out.0 == Done ==>
      && db.books[bookId].userId == user.id
      && out.1 == db.(books := out.1.books)
      && out.1.books.Keys == db.books.Keys - {bookId}
      && (forall id :: id in out.1.books ==> out.1.books[id] == db.books[id])
  {
    match GetBook(db.books, bookId)
    case None => (NotFound, db)
    case Some(book) =>
      if book.userId != user.id then (Forbidden, db)
      else (Done, db.(books := DeleteBook(db.books, bookId)))
  }

  /** A request whose current-user dependency resolved to `user`. The list and
      the two GET pages only read: they never change the store, and both pages
      answer with the same lookup and ownership test. */
  function Dispatch(db: Db, user: User, req: Request): (out: (Reply, Db))
    requires Consistent(db)
    ensures req.ListRequest? || req.EditPageRequest? || req.DeletePageRequest? ==> out.1 == db
    ensures req.ListRequest? ==> out.0.Listing? && forall b :: b in out.0.books <==> b in db.books.Values && b.userId == user.id
    ensures req.EditPageRequest? || req.DeletePageRequest? ==> out.0 == OwnerPage(db, user, req.bookId)
  {
    match req
    case RegisterRequest(form) => RegisterOutcome(db, form)
    case ListRequest => (Listing(GetBooks(db.books, user.id)), db)
    case AddRequest(input) => AddOutcome(db, user, input)
    case EditPageRequest(bookId) => (OwnerPage(db, user, bookId), db)
    case EditRequest(bookId, input) => EditOutcome(db, user, bookId, input)
    case DeletePageRequest(bookId) => (OwnerPage(db, user, bookId), db)
    case DeleteRequest(bookId) => DeleteOutcome(db, user, bookId)
  }

  /** One request: `register` needs no login; every other handler first resolves
      the current user from the session and is refused without one. */
  function Handle(db: Db, session: Option<string>, req: Request): (out: (Reply, Db))
    requires Consistent(db)
    ensures req.RegisterRequest? ==> out == RegisterOutcome(db, req.form)
    ensures !req.RegisterRequest? && CurrentUser(db.users, session).None? ==> out == (Unauthorized, db)
    ensures !req.RegisterRequest? && CurrentUser(db.users, session).Some? ==>
      out == Dispatch(db, CurrentUser(db.users, session).value, req)
  {
    if req.RegisterRequest? then RegisterOutcome(db, req.form)
    else
      match CurrentUser(db.users, session)
      case None => (Unauthorized, db)
      case Some(user) => Dispatch(db, user, req)
  }

  /** Every request keeps the store consistent. */
  lemma HandleKeepsConsistent(db: Db, session: Option<string>, req: Request)
    requires Consistent(db)
    ensures Consistent(Handle(db, session, req).1)
  {
    if req.RegisterRequest? {
      if req.form.username !in db.users {
        CreateUserKeepsConsistent(db, req.form);
      }
    } else if CurrentUser(db.users, session).Some? && req.AddRequest? {
      CreateBookKeepsConsistent(db, req.input, CurrentUser(db.users, session).value);
    }
  }

  /** A book added by someone else is not the user `uid`'s. */
  lemma AddKeepsOthersBooks(db: Db, user: User, input: BookCreate, uid: nat)
    requires Consistent(db) && user.id != uid
    ensures BooksOf(AddOutcome(db, user, input).1.books, uid) == BooksOf(db.books, uid)
  {
  }

  /** An edit by someone else changes no book of the user `uid`. */
  lemma EditKeepsOthersBooks(db: Db, user: User, bookId: nat, input: BookCreate, uid: nat)
    requires user.id != uid
    ensures BooksOf(EditOutcome(db, user, bookId, input).1.books, uid) == BooksOf(db.books, uid)
  {
  }

  /** A delete by someone else removes no book of the user `uid`. */
  lemma DeleteKeepsOthersBooks(db: Db, user: User, bookId: nat, uid: nat)
    requires user.id != uid
    ensures BooksOf(DeleteOutcome(db, user, bookId).1.books, uid) == BooksOf(db.books, uid)
  {
  }

  /** A request made in a session that is not `name`'s leaves `name`'s account and
      every book `name` owns exactly as they were. */
  lemma HandleKeepsOthersBooks(db: Db, session: Option<string>, req: Request, name: string)
    requires Consistent(db) && name in db.users && session != Some(name)
    ensures name in Handle(db, session, req).1.users
    ensures Handle(db, session, req).1.users[name] == db.users[name]
    ensures BooksOf(Handle(db, session, req).1.books, db.users[name].id) == BooksOf(db.books, db.users[name].id)
  {
    var uid := db.users[name].id;
    if !req.RegisterRequest? && CurrentUser(db.users, session).Some? {
      var user := CurrentUser(db.users, session).value;
      CurrentUsersDiffer(db, user, User(uid, name));
      match req
      case ListRequest =>
      case AddRequest(input) => AddKeepsOthersBooks(db, user, input, uid);
      case EditPageRequest(_) =>
      case EditRequest(bookId, input) => EditKeepsOthersBooks(db, user, bookId, input, uid);
      case DeletePageRequest(_) =>
      case DeleteRequest(bookId) => DeleteKeepsOthersBooks(db, user, bookId, uid);
    }
  }

  /** A request made in a session, with the handler's path through it. */
  datatype Call = Call(session: Option<string>, req: Request)

  /** The store after handling `calls` one after the other, each against the
      store its predecessors left. */
  function Run(db: Db, calls: seq<Call>): (r: Db)
    requires Consistent(db)
    ensures Consistent(r)
    decreases |calls|
  {
    if calls == [] then db
    else
      HandleKeepsConsistent(db, calls[0].session, calls[0].req);
      Run(Handle(db, calls[0].session, calls[0].req).1, calls[1..])
  }

  /** No sequence of requests made outside `name`'s sessions adds, changes or
      removes any book that `name` owns. */
  lemma {:induction false} OthersCannotTouch(db: Db, calls: seq<Call>, name: string)
    requires Consistent(db) && name in db.users
    requires forall i :: 0 <= i < |calls| ==> calls[i].session != Some(name)
    ensures name in Run(db, calls).users && Run(db, calls).users[name] == db.users[name]
    ensures BooksOf(Run(db, calls).books, db.users[name].id) == BooksOf(db.books, db.users[name].id)
    decreases |calls|
  {
    if calls != [] {
      var db' := Handle(db, calls[0].session, calls[0].req).1;
      HandleKeepsConsistent(db, calls[0].session, calls[0].req);
      HandleKeepsOthersBooks(db, calls[0].session, calls[0].req, name);
      OthersCannotTouch(db', calls[1..], name);
    }
  }

  /** A request never gives a book that already had an id a different owner, and
      never brings back a book that was removed: ids are not reused. */
  lemma HandleKeepsOwner(db: Db, session: Option<string>, req: Request, id: nat)
    requires Consistent(db) && id < db.nextBookId
    ensures id < Handle(db, session, req).1.nextBookId
    ensures id in Handle(db, session, req).1.books ==>
      id in db.books && Handle(db, session, req).1.books[id].userId == db.books[id].userId
  {
  }

  /** Ownership is fixed at creation: whatever requests follow, a book that still
      exists has the owner it had before them. */
  lemma {:induction false} OwnerIsFixed(db: Db, calls: seq<Call>, id: nat)
    requires Consistent(db) && id < db.nextBookId
    ensures id in Run(db, calls).books ==> id in db.books && Run(db, calls).books[id].userId == db.books[id].userId
    decreases |calls|
  {
    if calls != [] {
      var db' := Handle(db, calls[0].session, calls[0].req).1;
      HandleKeepsConsistent(db, calls[0].session, calls[0].req);
      HandleKeepsOwner(db, calls[0].session, calls[0].req, id);
      OwnerIsFixed(db', calls[1..], id);
    }
  }

  /** Creating a book and then opening its edit page shows the submitted fields,
      owned by the creator. */
  lemma CreateThenEditPage(db: Db, name: string, input: BookCreate)
    requires Consistent(db) && name in db.users
    ensures var db' := Handle(db, Some(name), AddRequest(input)).1;
      Handle(db', Some(name), EditPageRequest(db.nextBookId)).0
        == Page(FromCreate(db.nextBookId, input, db.users[name].id))
  {
  }

  /** Alice adds "1984"; Bob's delete request is refused with 403 and Alice's list
      still holds the book. */
  lemma OtherUserDeleteScenario(db: Db)
    requires Consistent(db) && "alice" in db.users && "bob" in db.users
    ensures var book := BookCreate("1984", "Orwell", 1949);
      var id := db.nextBookId;
      var db1 := Handle(db, Some("alice"), AddRequest(book)).1;
      var (reply, db2) := Handle(db1, Some("bob"), DeleteRequest(id));
      && reply == Forbidden
      && db2 == db1
      && FromCreate(id, book, db.users["alice"].id) in Handle(db2, Some("alice"), ListRequest).0.books
  {
    var id := db.nextBookId;
    var db1 := Handle(db, Some("alice"), AddRequest(BookCreate("1984", "Orwell", 1949))).1;
    CurrentUsersDiffer(db, User(db.users["alice"].id, "alice"), User(db.users["bob"].id, "bob"));
    assert db1.books[id] in db1.books.Values;
  }

  /** Registering and then logging in: the right password is accepted, any other refused. */
  lemma RegisterThenAuthenticate(db: Db, name: string, password: string, wrong: string)
    requires Consistent(db) && name !in db.users && wrong != password
    ensures var db' := Handle(db, None, RegisterRequest(UserCreate(name, password))).1;
      && Authenticate(db'.users, name, password).Some?
      && Authenticate(db'.users, name, wrong) == None
  {
  }

  /**
   * The store the FastAPI handlers work on, updated in place. Each handler takes
   * the user its current-user dependency resolved, and is proved to do what the
   * corresponding function above says.
   */
  class App {

    var books: map<nat, Book>
    var users: map<string, Account>
    var nextBookId: nat
    var nextUserId: nat

    /** The store as a value. */
    function State(): Db
      reads this
    {
      Db(books, users, nextBookId, nextUserId)
    }

    ghost predicate Valid()
      reads this
    {
      Consistent(State())
    }

    /** An empty store; the database's ids start at 1. */
    constructor ()
      ensures Valid()
      ensures State() == Db(map[], map[], 1, 1)
    {
      books, users := map[], map[];
      nextBookId, nextUserId := 1, 1;
    }

    method Register(form: UserCreate) returns (r: Reply)
      requires Valid()
      modifies this
      ensures Valid()
      ensures (r, State()) == RegisterOutcome(old(State()), form)
    {
      var existing := GetUserByUsername(users, form.username);
      if existing.Some? {
        return UsernameExists;
      }
      CreateUserKeepsConsistent(State(), form);
      users := CreateUser(users, nextUserId, form);
      nextUserId := nextUserId + 1;
      r := Done;
    }

    /** `book_list` changes nothing and answers exactly the current user's books. */
    method BookList(current: User) returns (list: set<Book>)
      ensures forall b :: b in list <==> b in books.Values && b.userId == current.id
    {
      list := GetBooks(books, current.id);
    }

    method AddBook(current: User, input: BookCreate) returns (r: Reply)
      requires Valid() && IsCurrent(users, current)
      modifies this
      ensures Valid()
      ensures (r, State()) == AddOutcome(old(State()), current, input)
    {
      CreateBookKeepsConsistent(State(), input, current);
      books := CreateBook(books, nextBookId, input, current.id);
      nextBookId := nextBookId + 1;
      r := Done;
    }

    /** `edit_book_page` changes nothing; it answers 403 to anyone but the owner. */
    method EditBookPage(current: User, bookId: nat) returns (r: Reply)
      ensures r == OwnerPage(State(), current, bookId)
      ensures r == Forbidden <==> bookId in books && books[bookId].userId != current.id
    {
      r := PageFor(current, bookId);
    }

    method EditBook(current: User, bookId: nat, input: BookCreate) returns (r: Reply)
      requires Valid()
      modifies this
      ensures Valid()
      ensures (r, State()) == EditOutcome(old(State()), current, bookId, input)
    {
      var book := GetBook(books, bookId);
      if book.None? {
        return NotFound;
      }
      if book.value.userId != current.id {
        return Forbidden;
      }
      books := UpdateBook(books, bookId, input);
      r := Done;
    }

    /** `delete_book_page` changes nothing; it answers 403 to anyone but the owner. */
    method DeleteBookPage(current: User, bookId: nat) returns (r: Reply)
      ensures r == OwnerPage(State(), current, bookId)
      ensures r == Forbidden <==> bookId in books && books[bookId].userId != current.id
    {
      r := PageFor(current, bookId);
    }

    method DeleteBook(current: User, bookId: nat) returns (r: Reply)
      requires Valid()
      modifies this
      ensures Valid()
      ensures (r, State()) == DeleteOutcome(old(State()), current, bookId)
    {
      var book := GetBook(books, bookId);
      if book.None? {
        return NotFound;
      }
      if book.value.userId != current.id {
        return Forbidden;
      }
      books := Store.DeleteBook(books, bookId);
      r := Done;
    }

    /** The lookup and ownership test the two page handlers share. */
    method PageFor(current: User, bookId: nat) returns (r: Reply)
      ensures r == OwnerPage(State(), current, bookId)
    {
      var book := GetBook(books, bookId);
      if book.None? {
        return NotFound;
      }
      if book.value.userId != current.id {
        return Forbidden;
      }
      r := Page(book.value);
    }
  }
}
