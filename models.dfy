/**
 * The Django `Book` model (books_django/books/models.py) and the validation that
 * the `BookForm` ModelForm derives from its field declarations.
 */
module Models {

  import opened Wrappers
  import opened Schemas

  /** `max_length` of the `title` column. */
  const MaxTitleLength := 200

  /** `max_length` of the `author` column. */
  const MaxAuthorLength := 200

  /** The column bounds of a Django book. `year` is an `IntegerField` with no range of its own. */
  predicate WithinBounds(b: Book)
  {
    |b.title| <= MaxTitleLength && |b.author| <= MaxAuthorLength
  }

  /** The raw fields of a submitted `BookForm`; `year` is None when it is missing
      or is not an integer. */
  datatype BookForm = BookForm(title: string, author: string, year: Option<int>)

  /** A required `CharField` with a `max_length`: present (non-empty) and not too long. */
  predicate AcceptsText(s: string, maxLength: nat)
  {
    0 < |s| <= maxLength
  }

  /** `form.is_valid()` together with the cleaned data it produces. */
  function Clean(form: BookForm): (r: Option<BookCreate>)
    ensures r.Some? <==>
      AcceptsText(form.title, MaxTitleLength) && AcceptsText(form.author, MaxAuthorLength) && form.year.Some?
    ensures r.Some? ==> r.value.title == form.title && r.value.author == form.author && Some(r.value.year) == form.year
    ensures r.Some? ==> forall b: Book :: Base(b) == r.value ==> WithinBounds(b)
  {
    match form.year
    case None => None
    case Some(year) =>
      if AcceptsText(form.title, MaxTitleLength) && AcceptsText(form.author, MaxAuthorLength)
      then Some(BookCreate(form.title, form.author, year))
      else None
  }
}
