/**
 The listing screen: a standing snapshot listener on `BookInformations`
 (ordered by "date", newest first) that rebuilds the `books` list, and the
 item-tap check that lets only a book's owner open the delete screen.
 */
module UserActivity {
  import opened Firestore
  import opened BookModel

  /** The extras the delete screen is opened with. */
  datatype Extras = Extras(
    bookName: Option<string>,
    bookAuthor: Option<string>,
    bookContent: Option<string>,
    bookPhotoUrl: Option<string>)

  /** What a tap on a row leads to. */
  datatype ClickOutcome = OpenDelete(extras: Extras) | Rejected(message: string)

  /** What one listener notification leads to besides the list itself. */
  datatype ListenerEffect =
    | ShowMessage(text: string)   // the error's localized message
    | DataSetChanged              // the adapter is told to redraw every row
    | NoEffect

  const NotYoursMessage := "Sorry :(( this book informations is not yours."

  predicate AllReadable(docs: seq<Document>)
  {
    forall i :: 0 <= i < |docs| ==> Readable(docs[i])
  }

  /** One `Book` per document, in the snapshot's order. */
  function BooksFrom(docs: seq<Document>): (r: seq<Book>)
    requires AllReadable(docs)
    ensures |r| == |docs|
    ensures forall i :: 0 <= i < |docs| ==> r[i] == BookOf(docs[i])
  {
    if docs == [] then [] else [BookOf(docs[0])] + BooksFrom(docs[1..])
  }

  /** Reading one more document appends its book. */
  lemma BooksFromSnoc(docs: seq<Document>, d: Document)
    requires AllReadable(docs) && Readable(d)
    ensures AllReadable(docs + [d])
    ensures BooksFrom(docs + [d]) == BooksFrom(docs) + [BookOf(d)]
  {
    assert forall i :: 0 <= i < |docs| ==> (docs + [d])[i] == docs[i];
  }

  /** The `books` list after one notification of the listener, given the list
      before it. */
  function Refreshed(books: seq<Book>, snapshot: Option<seq<Document>>, error: Option<string>): (r: seq<Book>)
    requires error.None? && snapshot.Some? ==> AllReadable(snapshot.value)
    ensures r == books || (error.None? && snapshot.Some? && |r| == |snapshot.value| > 0)
  {
    if error.Some? then books
    else if snapshot.Some? && |snapshot.value| > 0 then BooksFrom(snapshot.value)
    else books
  }

  /** An error notification leaves the list exactly as it was. */
  lemma ErrorKeepsBooks(books: seq<Book>, snapshot: Option<seq<Document>>, message: string)
    ensures Refreshed(books, snapshot, Some(message)) == books
  {
  }

  /** A null or empty snapshot leaves the list as it was: it is not cleared. */
  lemma EmptySnapshotKeepsBooks(books: seq<Book>, snapshot: Option<seq<Document>>)
    requires snapshot.None? || snapshot.value == []
    ensures Refreshed(books, snapshot, None) == books
  {
  }

  /** A non-empty snapshot replaces the list by one book per document, in
      store order, whatever the list held before. */
  lemma SnapshotReplacesBooks(books: seq<Book>, docs: seq<Document>)
    requires AllReadable(docs) && docs != []
    ensures |Refreshed(books, Some(docs), None)| == |docs|
    ensures forall i :: 0 <= i < |docs| ==> Refreshed(books, Some(docs), None)[i] == BookOf(docs[i])
  {
  }

  /** Delivering the same notification twice gives the list of delivering it
      once: nothing is duplicated. */
  lemma RefreshIdempotent(books: seq<Book>, snapshot: Option<seq<Document>>, error: Option<string>)
    requires error.None? && snapshot.Some? ==> AllReadable(snapshot.value)
    ensures Refreshed(Refreshed(books, snapshot, error), snapshot, error) == Refreshed(books, snapshot, error)
  {
  }

  /** The list changes only on a successful, non-empty snapshot. */
  lemma RefreshChangesOnlyOnData(books: seq<Book>, snapshot: Option<seq<Document>>, error: Option<string>)
    requires error.None? && snapshot.Some? ==> AllReadable(snapshot.value)
    requires Refreshed(books, snapshot, error) != books
    ensures error.None? && snapshot.Some? && snapshot.value != []
  {
  }

  /** The list a listener would keep if an empty snapshot cleared it, so that
      the list always mirrors the collection after an error-free notification. */
  function RefreshedClearing(books: seq<Book>, snapshot: Option<seq<Document>>, error: Option<string>): (r: seq<Book>)
    requires error.None? && snapshot.Some? ==> AllReadable(snapshot.value)
    ensures error.None? && snapshot.Some? ==> |r| == |snapshot.value|
    ensures error.None? && snapshot.Some? ==> forall i :: 0 <= i < |r| ==> r[i] == BookOf(snapshot.value[i])
  {
    if error.Some? || snapshot.None? then books else BooksFrom(snapshot.value)
  }

  /** The listener as written and the clearing one differ only on an empty
      snapshot delivered to a non-empty list. */
  lemma ClearingDiffersOnlyOnEmpty(books: seq<Book>, snapshot: Option<seq<Document>>, error: Option<string>)
    requires error.None? && snapshot.Some? ==> AllReadable(snapshot.value)
    ensures Refreshed(books, snapshot, error) != RefreshedClearing(books, snapshot, error) <==>
      error.None? && snapshot == Some([]) && books != []
  {
  }

  /** The decision of `onItemClick`: only a book whose owner equals the
      current user's display name (as text) opens the delete screen. */
  function Tap(book: Book, displayName: Option<string>): (r: ClickOutcome)
    ensures r.OpenDelete? <==> book.username == Some(OwnerName(displayName))
    ensures book.username.None? ==> r.Rejected?
    ensures r.OpenDelete? ==>
      r.extras == Extras(book.bookName, book.bookAuthor, book.bookContent, book.bookPhotoUrl)
    ensures r.Rejected? ==> r.message == NotYoursMessage
  {
    match book.username
    case None => Rejected(NotYoursMessage)
    case Some(owner) =>
      if owner == OwnerName(displayName) then
        OpenDelete(Extras(book.bookName, book.bookAuthor, book.bookContent, book.bookPhotoUrl))
      else
        Rejected(NotYoursMessage)
  }

  /** The listing screen's state: the list the adapter shows, and the four
      fields the listener overwrites for every document it reads. */
  class UserScreen {
    var books: seq<Book>
    var username: Option<string>
    var bookName: Option<string>
    var bookAuthor: Option<string>
    var bookContent: Option<string>

    constructor ()
      ensures books == []
      ensures username == None && bookName == None && bookAuthor == None && bookContent == None
    {
      books := [];
      username, bookName, bookAuthor, bookContent := None, None, None, None;
    }

    /** The snapshot listener of `getDataFromDatabase`, called with the
        snapshot and the error the backend delivers. */
    method OnSnapshot(snapshot: Option<seq<Document>>, error: Option<string>) returns (effect: ListenerEffect)
      requires error.None? && snapshot.Some? ==> AllReadable(snapshot.value)
      modifies this
      ensures books == Refreshed(old(books), snapshot, error)
      ensures error.Some? ==> effect == ShowMessage(error.value)
      ensures error.None? && snapshot.Some? && snapshot.value != [] ==>
        var last := snapshot.value[|snapshot.value| - 1];
        && effect == DataSetChanged
        && username == StringField(last, UsernameKey)
        && bookName == StringField(last, BookNameKey)
        && bookAuthor == StringField(last, BookAuthorKey)
        && bookContent == StringField(last, BookContentKey)
      ensures error.None? && (snapshot.None? || snapshot.value == []) ==> effect == NoEffect
      ensures effect != DataSetChanged ==>
        && username == old(username) && bookName == old(bookName)
        && bookAuthor == old(bookAuthor) && bookContent == old(bookContent)
    {
      if error.Some? {
        effect := ShowMessage(error.value);
      } else if snapshot.Some? && |snapshot.value| > 0 {
        var documents := snapshot.value;
        books := [];
        for i := 0 to |documents|
          invariant AllReadable(documents[..i])
          invariant books == BooksFrom(documents[..i])
          invariant i > 0 ==>
            && username == StringField(documents[i - 1], UsernameKey)
            && bookName == StringField(documents[i - 1], BookNameKey)
            && bookAuthor == StringField(documents[i - 1], BookAuthorKey)
            && bookContent == StringField(documents[i - 1], BookContentKey)
        {
          var document := documents[i];
          username := StringField(document, UsernameKey);
          bookName := StringField(document, BookNameKey);
          bookAuthor := StringField(document, BookAuthorKey);
          bookContent := StringField(document, BookContentKey);
          var bookPhotoUrl := StringField(document, BookPhotoUrlKey);
          books := books + [Book(username, bookName, bookAuthor, bookContent, bookPhotoUrl)];
          assert documents[..i + 1] == documents[..i] + [document];
          BooksFromSnoc(documents[..i], document);
        }
        assert documents[..|documents|] == documents;
        effect := DataSetChanged;
      } else {
        effect := NoEffect;
      }
    }

    /** `onItemClick(position)`: the adapter only reports positions of rows it shows. */
    method OnItemClick(position: nat, displayName: Option<string>) returns (r: ClickOutcome)
      requires position < |books|
      ensures r.OpenDelete? <==> books[position].username == Some(OwnerName(displayName))
      ensures r == Tap(books[position], displayName)
    {
      r := Tap(books[position], displayName);
    }
  }
}
