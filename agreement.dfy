/**
 * The two variants side by side. For requests that Django's forms accept, both
 * leave the store in the same state and differ only in what a refused or missing
 * request is told. Django's forms refuse input that FastAPI stores: a title or
 * author over 200 characters, and a registration whose passwords differ or fail
 * Django's other checks.
 */
module Agreement {

  import opened Wrappers
  import opened Schemas
  import opened Models
  import opened Store
  import FastApi
  import Django

  /** Registering with matching passwords that pass Django's other checks has
      the same effect in both variants, and both refuse a taken username. */
  lemma SameEffectOnRegister(db: Db, username: string, password: string)
    ensures var fast := FastApi.RegisterOutcome(db, UserCreate(username, password));
      var slow := Django.RegisterOutcome(db, Django.Post, Django.RegisterForm(username, password, password, true));
      && fast.1 == slow.1
      && (fast.0 == FastApi.UsernameExists <==> slow.0 == Django.RenderForm(None))
  {
  }

  /** A validated book form adds the same book in both variants. */
  lemma SameEffectOnAdd(db: Db, user: User, form: BookForm)
    requires Django.WellFormed(db) && Clean(form).Some?
    ensures FastApi.AddOutcome(db, user, Clean(form).value).1 == Django.AddOutcome(db, user, Django.Post, form).1
  {
  }

  /** A validated edit submission has the same effect in both variants; where
      FastAPI answers 403, Django answers the redirect it gives on success. */
  lemma SameEffectOnEdit(db: Db, user: User, bookId: nat, form: BookForm)
    requires Clean(form).Some?
    ensures var fast := FastApi.EditOutcome(db, user, bookId, Clean(form).value);
      var slow := Django.EditOutcome(db, user, bookId, Django.Post, form);
      && fast.1 == slow.1
      && (fast.0 == FastApi.NotFound <==> slow.0 == Django.NotFound)
      && (fast.0 == FastApi.Forbidden ==> slow.0 == Django.RedirectToList)
  {
  }

  /** A delete has the same effect in both variants; where FastAPI answers 403,
      Django answers the redirect it gives on success. */
  lemma SameEffectOnDelete(db: Db, user: User, bookId: nat)
    ensures var fast := FastApi.DeleteOutcome(db, user, bookId);
      var django := Django.DeleteOutcome(db, user, bookId);
      && fast.1 == django.1
      && (fast.0 == FastApi.NotFound <==> django.0 == Django.NotFound)
      && (fast.0 == FastApi.Forbidden || fast.0 == FastApi.Done <==> django.0 == Django.RedirectToList)
  {
  }

  /** Where the variants differ: FastAPI stores a 201-character title, while
      Django's `BookForm` refuses it and creates nothing. */
  lemma VariantsDifferOnLongTitle(db: Db, user: User)
    requires Django.WellFormed(db)
    ensures var title := seq(MaxTitleLength + 1, _ => 'x');
      && FastApi.AddOutcome(db, user, BookCreate(title, "Orwell", 1949)).0 == FastApi.Done
      && Base(FastApi.AddOutcome(db, user, BookCreate(title, "Orwell", 1949)).1.books[db.nextBookId]).title == title
      && Django.AddOutcome(db, user, Django.Post, BookForm(title, "Orwell", Some(1949))) == (Django.RenderForm(None), db)
  {
  }

  /** Where the variants differ: Django refuses a registration whose two
      passwords differ, and FastAPI, which asks for one password, registers it. */
  lemma VariantsDifferOnPasswordMismatch(db: Db, username: string, password: string, retyped: string)
    requires username !in db.users && password != retyped
    ensures FastApi.RegisterOutcome(db, UserCreate(username, password)).0 == FastApi.Done
    ensures username in FastApi.RegisterOutcome(db, UserCreate(username, password)).1.users
    ensures Django.RegisterOutcome(db, Django.Post, Django.RegisterForm(username, password, retyped, true)) == (Django.RenderForm(None), db)
  {
  }
}
