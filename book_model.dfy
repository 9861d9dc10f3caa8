/**
 The book record as the screens hold it: five nullable strings, read from a
 document of the `BookInformations` collection under keys of the same names.
 */
module BookModel {
  import opened Firestore

  datatype Book = Book(
    username: Option<string>,
    bookName: Option<string>,
    bookAuthor: Option<string>,
    bookContent: Option<string>,
    bookPhotoUrl: Option<string>)

  const UsernameKey := "username"
  const BookNameKey := "bookName"
  const BookAuthorKey := "bookAuthor"
  const BookContentKey := "bookContent"
  const BookPhotoUrlKey := "bookPhotoUrl"
  const DateKey := "date"

  /** Every key the listing reads can be cast to `String?`. */
  predicate Readable(d: Document)
  {
    && CastsToString(d, UsernameKey)
    && CastsToString(d, BookNameKey)
    && CastsToString(d, BookAuthorKey)
    && CastsToString(d, BookContentKey)
    && CastsToString(d, BookPhotoUrlKey)
  }

  /** A missing key or a stored null reads as None, a stored string as itself. */
  predicate ReadsAs(d: Document, key: string, v: Option<string>)
  {
    && (v.None? <==> key !in d || d[key] == Null)
    && (v.Some? ==> d[key] == Text(v.value))
  }

  /** The `Book` the listing builds from one document. */
  function BookOf(d: Document): (b: Book)
    requires Readable(d)
    ensures ReadsAs(d, UsernameKey, b.username)
    ensures ReadsAs(d, BookNameKey, b.bookName)
    ensures ReadsAs(d, BookAuthorKey, b.bookAuthor)
    ensures ReadsAs(d, BookContentKey, b.bookContent)
    ensures ReadsAs(d, BookPhotoUrlKey, b.bookPhotoUrl)
  {
    Book(
      StringField(d, UsernameKey),
      StringField(d, BookNameKey),
      StringField(d, BookAuthorKey),
      StringField(d, BookContentKey),
      StringField(d, BookPhotoUrlKey))
  }

  /** `auth.currentUser!!.displayName.toString()`: a null display name becomes
      the four-letter text "null". */
  function OwnerName(displayName: Option<string>): (r: string)
    ensures displayName.Some? ==> r == displayName.value
    ensures r == "null" <==> displayName == None || displayName == Some("null")
  {
    match displayName
    case Some(name) => name
    case None => "null"
  }
}
