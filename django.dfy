/**
 * The Django variant (books_django/books/views.py): its views' ownership checks
 * and store effects. A non-owner is silently redirected to the list, and a
 * non-owner's delete silently does nothing.
 *
 * As in the FastAPI variant, the views are given as pure functions on a store
 * snapshot, about which the properties are proved, and as the methods of `App`,
 * each proved equal to its function.
 */
module Django {

  import opened Wrappers
  import opened Schemas
  import opened Models
  import opened Store

  /** The request method a view branches on. */
  datatype HttpMethod = Get | Post

  /** What a view answers, with templates and redirects reduced to the kind of answer. */
  datatype Reply =
    | RedirectToList                  // redirect('book_list')
    | RenderForm(book: Option<Book>)  // a form page: register, add, or edit with its book
    | Listing(books: set<Book>)       // the book list page
    | NotFound                        // no book has the requested id
    | RedirectToLogin                 // `login_required` sent the request to the login page

  /** The fields of a submitted `RegisterForm`. Username uniqueness and password
      matching are modelled; `otherChecksPass` is the verdict of the rest of
      Django's `UserCreationForm` validation (username syntax and length, password
      validators). */
  datatype RegisterForm = RegisterForm(username: string, password1: string, password2: string, otherChecksPass: bool)

  /** The requests that reach the modelled views, with their method and form fields. */
  datatype Request =
    | RegisterRequest(verb: HttpMethod, signup: RegisterForm)
    | ListRequest
    | AddRequest(verb: HttpMethod, form: BookForm)
    | EditRequest(bookId: nat, verb: HttpMethod, form: BookForm)
    | DeleteRequest(bookId: nat, verb: HttpMethod)

  /** The store invariant plus the column bounds of models.py, which every write
      respects because it goes through a validated `BookForm`. */
  ghost predicate WellFormed(db: Db)
  {
    && Store.Consistent(db)
    && forall id :: id in db.books ==> WithinBounds(db.books[id])
  }

  /** `RegisterForm.is_valid()` against the current user table. */
  predicate RegisterFormValid(users: map<string, Account>, form: RegisterForm)
  {
    form.username !in users && form.password1 == form.password2 && form.otherChecksPass
  }

  /** `register`: a valid POST adds exactly one account; anything else re-renders
      the form and adds none. */
  function RegisterOutcome(db: Db, verb: HttpMethod, form: RegisterForm): (out: (Reply, Db))
    ensures out.0 == RedirectToList <==> verb == Post && RegisterFormValid(db.users, form)
    ensures out.0 != RedirectToList ==> out == (RenderForm(None), db)
    ensures out.0 == RedirectToList ==>
      && out.1.users.Keys == db.users.Keys + {form.username}
      && out.1.users[form.username] == Account(db.nextUserId, form.username, Hashed(form.password1))
      && (forall n :: n in db.users ==> out.1.users[n] == db.users[n])
      && out.1.books == db.books && out.1.nextBookId == db.nextBookId
  {
    if verb == Post && RegisterFormValid(db.users, form) then
      (RedirectToList,
       db.(users := CreateUser(db.users, db.nextUserId, UserCreate(form.username, form.password1)),
           nextUserId := db.nextUserId + 1))
    else
      (RenderForm(None), db)
  }

  /** `add_book`: a valid POST inserts one book with the submitted fields under the
      next id, owned by the requesting user; anything else creates nothing. */
  function AddOutcome(db: Db, user: User, verb: HttpMethod, form: BookForm): (out: (Reply, Db))
    requires WellFormed(db)
    ensures out.0 == RedirectToList <==> verb == Post && Clean(form).Some?
    ensures out.0 != RedirectToList ==> out == (RenderForm(None), db)
    ensures out.0 == RedirectToList ==>
      && out.1.books.Keys == db.books.Keys + {db.nextBookId} && db.nextBookId !in db.books
      && out.1.books[db.nextBookId] == FromCreate(db.nextBookId, Clean(form).value, user.id)
      && (forall id :: id in db.books ==> out.1.books[id] == db.books[id])
      && out.1.users == db.users && out.1.nextUserId == db.nextUserId
  {
    match Clean(form)
    case Some(input) =>
      if verb == Post
      then (RedirectToList, db.(books := CreateBook(db.books, db.nextBookId, input, user.id), nextBookId := db.nextBookId + 1))
      else (RenderForm(None), db)
    case None => (RenderForm(None), db)
  }

  /**
   * `edit_book`: look the book up; a non-owner is redirected to the list, for GET
   * and POST alike, with nothing changed; the owner's valid POST overwrites title,
   * author and year and keeps the owner; the owner's GET or invalid POST renders
   * the form and changes nothing.
   */
  function EditOutcome(db: Db, user: User, bookId: nat, verb: HttpMethod, form: BookForm): (out: (Reply, Db))
    ensures out.0 == NotFound <==> bookId !in db.books
    ensures out.0 == NotFound ==> out.1 == db
    ensures bookId in db.books && db.books[bookId].userId != user.id ==> out == (RedirectToList, db)
    ensures bookId in db.books && db.books[bookId].userId == user.id && (verb == Get || Clean(form).None?) ==>
      out == (RenderForm(Some(db.books[bookId])), db)
    ensures bookId in db.books && db.books[bookId].userId == user.id && verb == Post && Clean(form).Some? ==>
      && out.0 == RedirectToList
      && out.1 == db.(books := out.1.books)
      && out.1.books.Keys == db.books.Keys
      && Base(out.1.books[bookId]) == Clean(form).value
      && out.1.books[bookId].id == db.books[bookId].id && out.1.books[bookId].userId == user.id
      && (forall id :: id in db.books && id != bookId ==> out.1.books[id] == db.books[id])
  {
    match GetBook(db.books, bookId)
    case None => (NotFound, db)
    case Some(book) =>
      if book.userId != user.id then (RedirectToList, db)
      else if verb == Post && Clean(form).Some? then
        (RedirectToList, db.(books := UpdateBook(db.books, bookId, Clean(form).value)))
      else (RenderForm(Some(book)), db)
  }

  /**
   * `delete_book`: look the book up; the owner's request removes exactly that
   * book, whatever the request method, since the view never looks at it; a
   * non-owner's request changes nothing and gets the same redirect.
   */
  function DeleteOutcome(db: Db, user: User, bookId: nat): (out: (Reply, Db))
    ensures out.0 == NotFound <==> bookId !in db.books
    ensures out.0 != NotFound ==> out.0 == RedirectToList
    ensures !(bookId in db.books && db.books[bookId].userId == user.id) ==> out.1 == db
    ensures bookId in db.books && db.books[bookId].userId == user.id ==>
      && out.1 == db.(books := out.1.books)
      && out.1.books.Keys == db.books.Keys - {bookId}
      && (forall id :: id in out.1.books ==> out.1.books[id] == db.books[id])
  {
    match GetBook(db.books, bookId)
    case None => (NotFound, db)
    case Some(book) =>
      if book.userId == user.id then (RedirectToList, db.(books := DeleteBook(db.books, bookId)))
      else (RedirectToList, db)
  }

  /** A request whose `login_required` check resolved to `user`. The list only
      reads; a delete is handled the same way whatever its request method. */
  function Dispatch(db: Db, user: User, req: Request): (out: (Reply, Db))
    requires WellFormed(db)
    ensures req.ListRequest? ==> out.1 == db && out.0.Listing?
    ensures req.ListRequest? ==> forall b :: b in out.0.books <==> b in db.books.Values && b.userId == user.id
    ensures req.DeleteRequest? ==> out == DeleteOutcome(db, user, req.bookId)
  {
    match req
    case RegisterRequest(verb, signup) => RegisterOutcome(db, verb, signup)
    case ListRequest => (Listing(GetBooks(db.books, user.id)), db)
    case AddRequest(verb, form) => AddOutcome(db, user, verb, form)
    case EditRequest(bookId, verb, form) => EditOutcome(db, user, bookId, verb, form)
    case DeleteRequest(bookId, _) => DeleteOutcome(db, user, bookId)
  }

  /** One request: `register` needs no login; every other view is behind
      `login_required`. */
  function Handle(db: Db, session: Option<string>, req: Request): (out: (Reply, Db))
    requires WellFormed(db)
    ensures req.RegisterRequest? ==> out == RegisterOutcome(db, req.verb, req.signup)
    ensures !req.RegisterRequest? && CurrentUser(db.users, session).None? ==> out == (RedirectToLogin, db)
    ensures !req.RegisterRequest? && CurrentUser(db.users, session).Some? ==>
      out == Dispatch(db, CurrentUser(db.users, session).value, req)
  {
    if req.RegisterRequest? then RegisterOutcome(db, req.verb, req.signup)
    else
      match CurrentUser(db.users, session)
      case None => (RedirectToLogin, db)
      case Some(user) => Dispatch(db, user, req)
  }

  /** An edit keeps the store well formed: the validated fields fit the columns. */
  lemma EditKeepsWellFormed(db: Db, user: User, bookId: nat, verb: HttpMethod, form: BookForm)
    requires WellFormed(db)
    ensures WellFormed(EditOutcome(db, user, bookId, verb, form).1)
  {
    var after := EditOutcome(db, user, bookId, verb, form).1;
    if after != db {
      assert WithinBounds(after.books[bookId]);
      UserIdsGrow(db.users, after.users);
    }
  }

  /** A delete keeps the store well formed. */
  lemma DeleteKeepsWellFormed(db: Db, user: User, bookId: nat)
    requires WellFormed(db)
    ensures WellFormed(DeleteOutcome(db, user, bookId).1)
  {
  }

  /** Every request keeps the store well formed, column bounds included. */
  lemma HandleKeepsWellFormed(db: Db, session: Option<string>, req: Request)
    requires WellFormed(db)
    ensures WellFormed(Handle(db, session, req).1)
  {
    match req
    case RegisterRequest(verb, signup) =>
      if verb == Post && RegisterFormValid(db.users, signup) {
        CreateUserKeepsConsistent(db, UserCreate(signup.username, signup.password1));
      }
    case ListRequest =>
    case AddRequest(verb, form) =>
      if CurrentUser(db.users, session).Some? && verb == Post && Clean(form).Some? {
        CreateBookKeepsConsistent(db, Clean(form).value, CurrentUser(db.users, session).value);
      }
    case EditRequest(bookId, verb, form) =>
      if CurrentUser(db.users, session).Some? {
        EditKeepsWellFormed(db, CurrentUser(db.users, session).value, bookId, verb, form);
      }
    case DeleteRequest(bookId, _) =>
      if CurrentUser(db.users, session).Some? {
        DeleteKeepsWellFormed(db, CurrentUser(db.users, session).value, bookId);
      }
  }

  /** A book added by someone else is not the user `uid`'s. */
  lemma AddKeepsOthersBooks(db: Db, user: User, verb: HttpMethod, form: BookForm, uid: nat)
    requires WellFormed(db) && user.id != uid
    ensures BooksOf(AddOutcome(db, user, verb, form).1.books, uid) == BooksOf(db.books, uid)
  {
  }

  /** An edit by someone else changes no book of the user `uid`. */
  lemma EditKeepsOthersBooks(db: Db, user: User, bookId: nat, verb: HttpMethod, form: BookForm, uid: nat)
    requires user.id != uid
    ensures BooksOf(EditOutcome(db, user, bookId, verb, form).1.books, uid) == BooksOf(db.books, uid)
  {
  }

  /** A delete by someone else removes no book of the user `uid`. */
  lemma DeleteKeepsOthersBooks(db: Db, user: User, bookId: nat, uid: nat)
    requires user.id != uid
    ensures BooksOf(DeleteOutcome(db, user, bookId).1.books, uid) == BooksOf(db.books, uid)
  {
  }

  /** A request made in a session that is not `name`'s leaves `name`'s account and
      every book `name` owns exactly as they were. */
  lemma HandleKeepsOthersBooks(db: Db, session: Option<string>, req: Request, name: string)
    requires WellFormed(db) && name in db.users && session != Some(name)
    ensures name in Handle(db, session, req).1.users
    ensures Handle(db, session, req).1.users[name] == db.users[name]
    ensures BooksOf(Handle(db, session, req).1.books, db.users[name].id) == BooksOf(db.books, db.users[name].id)
  {
    var uid := db.users[name].id;
    if !req.RegisterRequest? && CurrentUser(db.users, session).Some? {
      var user := CurrentUser(db.users, session).value;
      CurrentUsersDiffer(db, user, User(uid, name));
      match req
      case ListRequest =>
      case AddRequest(verb, form) => AddKeepsOthersBooks(db, user, verb, form, uid);
      case EditRequest(bookId, verb, form) => EditKeepsOthersBooks(db, user, bookId, verb, form, uid);
      case DeleteRequest(bookId, _) => DeleteKeepsOthersBooks(db, user, bookId, uid);
    }
  }

  /** A request made in a session. */
  datatype Call = Call(session: Option<string>, req: Request)

  /** The store after handling `calls` one after the other. */
  function Run(db: Db, calls: seq<Call>): (r: Db)
    requires WellFormed(db)
    ensures WellFormed(r)
    decreases |calls|
  {
    if calls == [] then db
    else
      HandleKeepsWellFormed(db, calls[0].session, calls[0].req);
      Run(Handle(db, calls[0].session, calls[0].req).1, calls[1..])
  }

  /** No sequence of requests made outside `name`'s sessions adds, changes or
      removes any book that `name` owns. */
  lemma {:induction false} OthersCannotTouch(db: Db, calls: seq<Call>, name: string)
    requires WellFormed(db) && name in db.users
    requires forall i :: 0 <= i < |calls| ==> calls[i].session != Some(name)
    ensures name in Run(db, calls).users && Run(db, calls).users[name] == db.users[name]
    ensures BooksOf(Run(db, calls).books, db.users[name].id) == BooksOf(db.books, db.users[name].id)
    decreases |calls|
  {
    if calls != [] {
      var db' := Handle(db, calls[0].session, calls[0].req).1;
      HandleKeepsWellFormed(db, calls[0].session, calls[0].req);
      HandleKeepsOthersBooks(db, calls[0].session, calls[0].req, name);
      OthersCannotTouch(db', calls[1..], name);
    }
  }

  /** A request never gives an existing book a different owner and never brings
      back a removed one. */
  lemma HandleKeepsOwner(db: Db, session: Option<string>, req: Request, id: nat)
    requires WellFormed(db) && id < db.nextBookId
    ensures id < Handle(db, session, req).1.nextBookId
    ensures id in Handle(db, session, req).1.books ==>
      id in db.books && Handle(db, session, req).1.books[id].userId == db.books[id].userId
  {
  }

  /** Ownership is fixed at creation: whatever requests follow, a book that still
      exists has the owner it had before them. */
  lemma {:induction false} OwnerIsFixed(db: Db, calls: seq<Call>, id: nat)
    requires WellFormed(db) && id < db.nextBookId
    ensures id in Run(db, calls).books ==> id in db.books && Run(db, calls).books[id].userId == db.books[id].userId
    decreases |calls|
  {
    if calls != [] {
      var db' := Handle(db, calls[0].session, calls[0].req).1;
      HandleKeepsWellFormed(db, calls[0].session, calls[0].req);
      HandleKeepsOwner(db, calls[0].session, calls[0].req, id);
      OwnerIsFixed(db', calls[1..], id);
    }
  }

  /** A non-owner cannot tell a refused delete from a successful one: both get the
      redirect to the list, and only the owner's changes the store. */
  lemma RefusedDeleteLooksLikeSuccess(db: Db, owner: User, other: User, bookId: nat)
    requires bookId in db.books && db.books[bookId].userId == owner.id && other.id != owner.id
    ensures DeleteOutcome(db, other, bookId) == (RedirectToList, db)
    ensures DeleteOutcome(db, owner, bookId).0 == RedirectToList
    ensures bookId !in DeleteOutcome(db, owner, bookId).1.books
  {
  }

  /** `on_delete=CASCADE`: removing an account removes every book it owns, and
      nothing else. No view removes accounts; this is the model's declared behaviour. */
  function DeleteUser(db: Db, name: string): (r: Db)
    requires name in db.users
    ensures r.users.Keys == db.users.Keys - {name}
    ensures forall n :: n in r.users ==> r.users[n] == db.users[n]
    ensures forall id :: id in r.books <==> id in db.books && db.books[id].userId != db.users[name].id
    ensures forall id :: id in r.books ==> r.books[id] == db.books[id]
  {
    var uid := db.users[name].id;
    db.(users := db.users - {name}, books := map id | id in db.books && db.books[id].userId != uid :: db.books[id])
  }

  /** The cascade leaves no book without an owner. */
  lemma DeleteUserKeepsWellFormed(db: Db, name: string)
    requires WellFormed(db) && name in db.users
    ensures WellFormed(DeleteUser(db, name))
  {
    var r := DeleteUser(db, name);
    forall id | id in r.books
      ensures r.books[id].userId in UserIds(r.users)
    {
      var n :| n in db.users && db.users[n].id == r.books[id].userId;
      assert n != name;
      assert r.users[n].id == r.books[id].userId;
    }
  }

  /**
   * The store the Django views work on, updated in place. Each view takes the
   * user `login_required` resolved and the request method, and is proved to do
   * what the corresponding function above says.
   */
  class App {

    var books: map<nat, Book>
    var users: map<string, Account>
    var nextBookId: nat
    var nextUserId: nat

    /** The store as a value. */
    function State(): Db
      reads this
    {
      Db(books, users, nextBookId, nextUserId)
    }

    ghost predicate Valid()
      reads this
    {
      WellFormed(State())
    }

    /** An empty store; the database's ids start at 1. */
    constructor ()
      ensures Valid()
      ensures State() == Db(map[], map[], 1, 1)
    {
      books, users := map[], map[];
      nextBookId, nextUserId := 1, 1;
    }

    method Register(verb: HttpMethod, form: RegisterForm) returns (r: Reply)
      requires Valid()
      modifies this
      ensures Valid()
      ensures (r, State()) == RegisterOutcome(old(State()), verb, form)
    {
      if verb == Post && RegisterFormValid(users, form) {
        var account := UserCreate(form.username, form.password1);
        CreateUserKeepsConsistent(State(), account);
        users := CreateUser(users, nextUserId, account);
        nextUserId := nextUserId + 1;
        return RedirectToList;
      }
      r := RenderForm(None);
    }

    /** `book_list` changes nothing and answers exactly the requesting user's books. */
    method BookList(current: User) returns (list: set<Book>)
      ensures forall b :: b in list <==> b in books.Values && b.userId == current.id
    {
      list := GetBooks(books, current.id);
    }

    method AddBook(current: User, verb: HttpMethod, form: BookForm) returns (r: Reply)
      requires Valid() && IsCurrent(users, current)
      modifies this
      ensures Valid()
      ensures (r, State()) == AddOutcome(old(State()), current, verb, form)
    {
      if verb == Post {
        var input := Clean(form);
        if input.Some? {
          CreateBookKeepsConsistent(State(), input.value, current);
          books := CreateBook(books, nextBookId, input.value, current.id);
          nextBookId := nextBookId + 1;
          return RedirectToList;
        }
      }
      r := RenderForm(None);
    }

    method EditBook(current: User, bookId: nat, verb: HttpMethod, form: BookForm) returns (r: Reply)
      requires Valid()
      modifies this
      ensures Valid()
      ensures (r, State()) == EditOutcome(old(State()), current, bookId, verb, form)
    {
      var book := GetBook(books, bookId);
      if book.None? {
        return NotFound;
      }
      if book.value.userId != current.id {
        return RedirectToList;
      }
      if verb == Post {
        var input := Clean(form);
        if input.Some? {
          books := UpdateBook(books, bookId, input.value);
          return RedirectToList;
        }
      }
      r := RenderForm(book);
    }

    /** `verb` is accepted and ignored, as the view ignores it. */
    method DeleteBook(current: User, bookId: nat, verb: HttpMethod) returns (r: Reply)
      requires Valid()
      modifies this
      ensures Valid()
      ensures (r, State()) == DeleteOutcome(old(State()), current, bookId)
    {
      var book := GetBook(books, bookId);
      if book.None? {
        return NotFound;
      }
      if book.value.userId == current.id {
        books := Store.DeleteBook(books, bookId);
      }
      r := RedirectToList;
    }
  }
}
