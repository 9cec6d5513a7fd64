/**
 * The persistent store both variants delegate to (`crud.*` with SQLAlchemy in the
 * FastAPI variant, the Django ORM in the other), reduced to the map operations the
 * handlers use: get by id, filter by owner, insert with a fresh id, overwrite
 * fields, remove; and the user table keyed by username.
 */
module Store {

  import opened Wrappers
  import opened Schemas

  /** A one-way hash of a password, kept symbolic: the model never compares a
      password with anything but the hash of that same password. */
  datatype Credential = Hashed(secret: string)

  /** A row of the user table: the id, the username and the hashed password. */
  datatype Account = Account(id: nat, username: string, credential: Credential)

  /** A snapshot of the whole store, with the next ids the database will assign. */
  datatype Db = Db(books: map<nat, Book>, users: map<string, Account>, nextBookId: nat, nextUserId: nat)

  /** The ids of all registered users. */
  ghost function UserIds(users: map<string, Account>): set<nat>
  {
    set n | n in users :: users[n].id
  }

  /**
   * What the database keeps true: every book is stored under its own id, and
   * below the next id to be assigned; every book's owner is a registered user
   * (a non-null foreign key); every account is stored under its own username,
   * below the next user id; and no two accounts share an id.
   */
  ghost predicate Consistent(db: Db)
  {
    && (forall id :: id in db.books ==> db.books[id].id == id && id < db.nextBookId)
    && (forall id :: id in db.books ==> db.books[id].userId in UserIds(db.users))
    && (forall n :: n in db.users ==> db.users[n].username == n && db.users[n].id < db.nextUserId)
    && (forall n, m :: n in db.users && m in db.users && db.users[n].id == db.users[m].id ==> n == m)
  }

  /** The user's own books, as a map from id to book. */
  function BooksOf(books: map<nat, Book>, userId: nat): (r: map<nat, Book>)
    ensures forall id :: id in r <==> id in books && books[id].userId == userId
    ensures forall id :: id in r ==> r[id] == books[id]
  {
    map id | id in books && books[id].userId == userId :: books[id]
  }

  /** `crud.get_book` / `Book.objects.get(id=...)`: the book stored under `id`, if any. */
  function GetBook(books: map<nat, Book>, id: nat): (r: Option<Book>)
    ensures r.Some? <==> id in books
    ensures r.Some? ==> r.value == books[id]
  {
    if id in books then Some(books[id]) else None
  }

  /** `crud.get_books(user_id=...)` / `Book.objects.filter(user=...)`: exactly the
      stored books whose owner is `userId`. */
  function GetBooks(books: map<nat, Book>, userId: nat): (r: set<Book>)
    ensures forall b :: b in r <==> b in books.Values && b.userId == userId
  {
    set id | id in books && books[id].userId == userId :: books[id]
  }

  /** `crud.create_book` / `book.save()` on a new row: insert the submitted fields
      under the fresh id `id`, owned by `userId`. */
  function CreateBook(books: map<nat, Book>, id: nat, input: BookCreate, userId: nat): (r: map<nat, Book>)
    requires id !in books
    ensures r.Keys == books.Keys + {id}
    ensures Base(r[id]) == input && r[id].id == id && r[id].userId == userId
    ensures forall k :: k in books ==> r[k] == books[k]
  {
    books[id := FromCreate(id, input, userId)]
  }

  /** `crud.update_book` / `form.save()` on an existing row: overwrite title, author
      and year of the book `id`; its id, its owner and every other book stay. */
  function UpdateBook(books: map<nat, Book>, id: nat, input: BookCreate): (r: map<nat, Book>)
    requires id in books
    ensures r.Keys == books.Keys
    ensures Base(r[id]) == input && r[id].id == books[id].id && r[id].userId == books[id].userId
    ensures forall k :: k in books && k != id ==> r[k] == books[k]
  {
    books[id := Overwrite(books[id], input)]
  }

  /** `crud.delete_book` / `book.delete()`: remove the book `id` and nothing else. */
  function DeleteBook(books: map<nat, Book>, id: nat): (r: map<nat, Book>)
    ensures r.Keys == books.Keys - {id}
    ensures forall k :: k in r ==> r[k] == books[k]
  {
    books - {id}
  }

  /** `crud.get_user_by_username`: the account registered under `username`, if any. */
  function GetUserByUsername(users: map<string, Account>, username: string): (r: Option<Account>)
    ensures r.Some? <==> username in users
    ensures r.Some? ==> r.value == users[username]
  {
    if username in users then Some(users[username]) else None
  }

  /** `crud.create_user` / `form.save()` on the registration form: add one account
      under the form's username with the fresh id `id`, storing only the hash of
      the password. */
  function CreateUser(users: map<string, Account>, id: nat, form: UserCreate): (r: map<string, Account>)
    requires form.username !in users
    ensures r.Keys == users.Keys + {form.username}
    ensures r[form.username] == Account(id, form.username, Hashed(form.password))
    ensures forall n :: n in users ==> r[n] == users[n]
  {
    users[form.username := Account(id, form.username, Hashed(form.password))]
  }

  /** True when `user` is what the authentication layer hands a handler: the
      public shape (id and username, no credential) of a registered account. */
  predicate IsCurrent(users: map<string, Account>, user: User)
  {
    user.username in users && users[user.username].id == user.id
  }

  /**
   * The "current user" dependency (`security.get_current_user`, `login_required`):
   * `session` is the username a valid token or session names, or None when the
   * request carries none; the user is looked up in the table, and a name that is
   * not registered yields no user either.
   */
  function CurrentUser(users: map<string, Account>, session: Option<string>): (r: Option<User>)
    ensures r.Some? <==> session.Some? && session.value in users
    ensures r.Some? ==> IsCurrent(users, r.value) && r.value.username == session.value
  {
    match session
    case None => None
    case Some(name) => if name in users then Some(User(users[name].id, name)) else None
  }

  /** `security.authenticate_user` / `authenticate`: the account's public shape when
      the password matches its stored hash; an unknown username and a wrong
      password give the same answer. */
  function Authenticate(users: map<string, Account>, username: string, password: string): (r: Option<User>)
    ensures r.Some? <==> username in users && users[username].credential == Hashed(password)
    ensures r.Some? ==> IsCurrent(users, r.value) && r.value.username == username
  {
    if username in users && users[username].credential == Hashed(password)
    then Some(User(users[username].id, username))
    else None
  }

  /** Adding accounts, and keeping the existing ones, keeps every registered id registered. */
  lemma UserIdsGrow(users: map<string, Account>, users': map<string, Account>)
    requires forall n :: n in users ==> n in users' && users'[n] == users[n]
    ensures UserIds(users) <= UserIds(users')
  {
    forall x | x in UserIds(users)
      ensures x in UserIds(users')
    {
      var n :| n in users && users[n].id == x;
      assert users'[n].id == x;
    }
  }

  /** Registering one account under a fresh id keeps the store consistent. */
  lemma CreateUserKeepsConsistent(db: Db, form: UserCreate)
    requires Consistent(db) && form.username !in db.users
    ensures Consistent(db.(users := CreateUser(db.users, db.nextUserId, form), nextUserId := db.nextUserId + 1))
  {
    var users' := CreateUser(db.users, db.nextUserId, form);
    UserIdsGrow(db.users, users');
  }

  /** Inserting a book under the next id, owned by a registered user, keeps the store consistent. */
  lemma CreateBookKeepsConsistent(db: Db, input: BookCreate, user: User)
    requires Consistent(db) && IsCurrent(db.users, user)
    ensures db.nextBookId !in db.books
    ensures Consistent(db.(books := CreateBook(db.books, db.nextBookId, input, user.id), nextBookId := db.nextBookId + 1))
  {
    assert db.users[user.username].id in UserIds(db.users);
  }

  /** The ids of two current users differ exactly when their usernames do. */
  lemma CurrentUsersDiffer(db: Db, u: User, v: User)
    requires Consistent(db) && IsCurrent(db.users, u) && IsCurrent(db.users, v)
    ensures u.id == v.id <==> u.username == v.username
  {
  }
}
