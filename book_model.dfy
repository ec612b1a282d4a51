/**
 * The Book schema: the shape of a catalog document, what its `trim` setters
 * do to a document before it is validated, and the constraints a stored
 * document satisfies.
 */
module BookModel {
  import opened Js
  import opened Common

  datatype Book = Book(
    title: string,
    author: string,
    isbn: string,
    publishedDate: int,
    genre: string,
    totalCopies: int,
    availableCopies: int)

  /** A `minlength` / `maxlength` pair, measured in UTF-16 code units. */
  predicate LengthIn(s: string, lo: nat, hi: nat) {
    lo <= Utf16Length(s) <= hi
  }

  /** The string constraints: trimmed, with the length bounds of each path. */
  predicate FieldsValid(b: Book) {
    && IsTrimmed(b.title) && LengthIn(b.title, 1, 150)
    && IsTrimmed(b.author) && LengthIn(b.author, 2, 100)
    && IsTrimmed(b.isbn) && LengthIn(b.isbn, 10, 13)
    && IsTrimmed(b.genre) && LengthIn(b.genre, 3, 30)
  }

  /** The numeric constraints: both counters at least 0, and the custom validator. */
  predicate CopiesValid(b: Book) {
    && b.totalCopies >= 0
    && b.availableCopies >= 0
    && !(b.availableCopies > b.totalCopies)
  }

  /** A document that every validator of the schema accepts. */
  predicate ValidBook(b: Book) {
    FieldsValid(b) && CopiesValid(b)
  }

  /** The `trim: true` setters, applied when a document is built. */
  function CastBook(raw: Book): (b: Book)
    ensures FieldsValid(b) <==>
      && LengthIn(Trim(raw.title), 1, 150) && LengthIn(Trim(raw.author), 2, 100)
      && LengthIn(Trim(raw.isbn), 10, 13) && LengthIn(Trim(raw.genre), 3, 30)
    ensures CopiesValid(b) <==> CopiesValid(raw)
  {
    raw.(title := Trim(raw.title), author := Trim(raw.author),
         isbn := Trim(raw.isbn), genre := Trim(raw.genre))
  }

  /** `save()` succeeds on the validation side exactly when the cast document is valid. */
  predicate Accepts(raw: Book) {
    ValidBook(CastBook(raw))
  }

  lemma ValidBookBounds(b: Book)
    requires ValidBook(b)
    ensures 0 <= b.availableCopies <= b.totalCopies
    ensures 1 <= Utf16Length(b.title) <= 150 && 2 <= Utf16Length(b.author) <= 100
    ensures 10 <= Utf16Length(b.isbn) <= 13 && 3 <= Utf16Length(b.genre) <= 30
    ensures |b.title| <= 150 && |b.author| <= 100 && 5 <= |b.isbn| <= 13 && 2 <= |b.genre| <= 30
  {
  }

  /** Casting a stored document again changes nothing. */
  lemma CastOfValid(b: Book)
    requires FieldsValid(b)
    ensures CastBook(b) == b
  {
    TrimOfTrimmed(b.title);
    TrimOfTrimmed(b.author);
    TrimOfTrimmed(b.isbn);
    TrimOfTrimmed(b.genre);
  }

  /** Casting is idempotent, whatever the input. */
  lemma CastIdempotent(raw: Book)
    ensures CastBook(CastBook(raw)) == CastBook(raw)
  {
    TrimIdempotent(raw.title);
    TrimIdempotent(raw.author);
    TrimIdempotent(raw.isbn);
    TrimIdempotent(raw.genre);
  }

  /** The `unique: true` index on `isbn`. */
  predicate UniqueIsbns(catalog: map<Id, Book>) {
    forall i, j | i in catalog && j in catalog && catalog[i].isbn == catalog[j].isbn :: i == j
  }

  /** Some book of the catalog carries this isbn (`findOne({ isbn })`). */
  predicate IsbnTaken(catalog: map<Id, Book>, isbn: string) {
    exists id | id in catalog :: catalog[id].isbn == isbn
  }
}
