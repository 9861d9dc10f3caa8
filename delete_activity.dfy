/**
 The delete screen: it shows the tapped book's texts and, on the delete
 button, queries `BookInformations` for every document whose "bookName"
 equals the tapped title and deletes each one it gets back.
 */
module DeleteActivity {
  import opened Firestore
  import opened BookModel
  import UserActivity

  const DeletedMessage := "Book information deleted"

  /** The document matches `whereEqualTo("bookName", title)`. */
  predicate HasTitle(d: Document, title: string)
    ensures Readable(d) ==> (HasTitle(d, title) <==> BookOf(d).bookName == Some(title))
  {
    BookNameKey in d && d[BookNameKey] == Text(title)
  }

  /** The result of `whereEqualTo("bookName", title).get()`. */
  function Matches(docs: seq<StoredDocument>, title: string): (r: seq<StoredDocument>)
    ensures forall d :: d in r <==> d in docs && HasTitle(d.fields, title)
  {
    if docs == [] then []
    else (if HasTitle(docs[0].fields, title) then [docs[0]] else []) + Matches(docs[1..], title)
  }

  /** The documents whose title differs from `title`, in store order. */
  function Unmatched(docs: seq<StoredDocument>, title: string): seq<StoredDocument>
  {
    if docs == [] then []
    else (if HasTitle(docs[0].fields, title) then [] else [docs[0]]) + Unmatched(docs[1..], title)
  }

  /** The field maps of stored documents, in order: what a snapshot holds. */
  function FieldsOf(docs: seq<StoredDocument>): (r: seq<Document>)
    ensures |r| == |docs|
    ensures forall i :: 0 <= i < |docs| ==> r[i] == docs[i].fields
  {
    if docs == [] then [] else [docs[0].fields] + FieldsOf(docs[1..])
  }

  lemma IdsOfCons(d: StoredDocument, docs: seq<StoredDocument>)
    ensures IdsOf([d] + docs) == {d.id} + IdsOf(docs)
  {
  }

  /** Identifiers that no document has do not change what remains. */
  lemma {:induction false} RemainingIgnoresAbsentId(docs: seq<StoredDocument>, ids: set<DocId>, id: DocId)
    requires id !in IdsOf(docs)
    ensures Remaining(docs, ids + {id}) == Remaining(docs, ids)
  {
    if docs != [] {
      IdsOfCons(docs[0], docs[1..]);
      assert [docs[0]] + docs[1..] == docs;
      RemainingIgnoresAbsentId(docs[1..], ids, id);
    }
  }

  /** Deleting, by identifier, every document the title query returns leaves
      exactly the documents with another title, in their order. */
  lemma {:induction false} DeletingMatchesLeavesUnmatched(docs: seq<StoredDocument>, title: string)
    requires UniqueIds(docs)
    ensures Remaining(docs, IdsOf(Matches(docs, title))) == Unmatched(docs, title)
  {
    if docs != [] {
      var d, rest := docs[0], docs[1..];
      DeletingMatchesLeavesUnmatched(rest, title);
      var restIds := IdsOf(Matches(rest, title));
      assert restIds <= IdsOf(rest);
      if HasTitle(d.fields, title) {
        IdsOfCons(d, Matches(rest, title));
        assert IdsOf(Matches(docs, title)) == restIds + {d.id};
        RemainingIgnoresAbsentId(rest, restIds, d.id);
      } else {
        assert Matches(docs, title) == Matches(rest, title);
      }
    }
  }

  /** With unique identifiers, a document survives the deletion exactly when
      its title differs or its own delete failed. */
  lemma {:induction false} DeleteKeepsExactly(docs: seq<StoredDocument>, title: string, failed: set<DocId>)
    requires UniqueIds(docs)
    ensures forall d :: d in Remaining(docs, IdsOf(Matches(docs, title)) - failed) <==>
      d in docs && (!HasTitle(d.fields, title) || d.id in failed)
  {
    forall d | d in docs && !HasTitle(d.fields, title)
      ensures d.id !in IdsOf(Matches(docs, title))
    {
      UniqueIdsDistinct(docs, d, title);
    }
  }

  /** The query matches on the title alone: a book of another owner that
      carries the deleted title is deleted too, unless its own delete fails. */
  lemma OtherOwnersSameTitleDeleted(docs: seq<StoredDocument>, title: string, failed: set<DocId>,
                                    owner: string, d: StoredDocument)
    requires UniqueIds(docs)
    requires d in docs && HasTitle(d.fields, title) && d.id !in failed
    requires Readable(d.fields) && BookOf(d.fields).username != Some(owner)
    ensures d !in Remaining(docs, IdsOf(Matches(docs, title)) - failed)
  {
    DeleteKeepsExactly(docs, title, failed);
  }

  /** In a collection with unique identifiers, a document's identifier is no
      identifier of a document with another title. */
  lemma {:induction false} UniqueIdsDistinct(docs: seq<StoredDocument>, d: StoredDocument, title: string)
    requires UniqueIds(docs) && d in docs && !HasTitle(d.fields, title)
    ensures d.id !in IdsOf(Matches(docs, title))
  {
    var first, rest := docs[0], docs[1..];
    assert docs == [first] + rest;
    IdsOfCons(first, rest);
    if d == first {
      assert IdsOf(Matches(docs, title)) == IdsOf(Matches(rest, title));
      assert IdsOf(Matches(rest, title)) <= IdsOf(rest);
    } else {
      UniqueIdsDistinct(rest, d, title);
      if HasTitle(first.fields, title) {
        assert d in rest;
        IdsOfCons(first, Matches(rest, title));
      } else {
        assert Matches(docs, title) == Matches(rest, title);
      }
    }
  }

  /** Once every match is deleted, the books built from the remaining
      documents include none with the deleted title. */
  lemma SurvivorsLackTitle(docs: seq<StoredDocument>, title: string)
    requires UniqueIds(docs)
    requires UserActivity.AllReadable(FieldsOf(docs))
    ensures var after := FieldsOf(Remaining(docs, IdsOf(Matches(docs, title))));
      && UserActivity.AllReadable(after)
      && forall b :: b in UserActivity.BooksFrom(after) ==> b.bookName != Some(title)
  {
  }

  /** When some book of another title survives the deletion, the listener's
      next notification leaves the screen's list without the deleted title. */
  lemma DeletedTitleNotListed(books: seq<Book>, docs: seq<StoredDocument>, title: string)
    requires UniqueIds(docs)
    requires UserActivity.AllReadable(FieldsOf(docs))
    requires Remaining(docs, IdsOf(Matches(docs, title))) != []
    ensures var after := FieldsOf(Remaining(docs, IdsOf(Matches(docs, title))));
      && UserActivity.AllReadable(after)
      && forall b :: b in UserActivity.Refreshed(books, Some(after), None) ==> b.bookName != Some(title)
  {
    SurvivorsLackTitle(docs, title);
  }

  /** When every book has the deleted title, the deletion empties the
      collection, the listener's empty snapshot keeps the list, and the
      deleted book stays listed. */
  lemma LastTitleStaysListed(docs: seq<StoredDocument>, title: string)
    requires UniqueIds(docs)
    requires UserActivity.AllReadable(FieldsOf(docs))
    requires docs != [] && forall d :: d in docs ==> HasTitle(d.fields, title)
    ensures var books := UserActivity.BooksFrom(FieldsOf(docs));
      var after := FieldsOf(Remaining(docs, IdsOf(Matches(docs, title))));
      && after == []
      && UserActivity.Refreshed(books, Some(after), None) == books
      && exists b :: b in UserActivity.Refreshed(books, Some(after), None) && b.bookName == Some(title)
  {
    var books := UserActivity.BooksFrom(FieldsOf(docs));
    assert books[0] == BookOf(docs[0].fields) && books[0] in books;
  }

  /** With a listener that clears the list on an empty snapshot, the deleted
      title is never listed after the deletion, whatever survives. */
  lemma DeletedTitleNeverListed(books: seq<Book>, docs: seq<StoredDocument>, title: string)
    requires UniqueIds(docs)
    requires UserActivity.AllReadable(FieldsOf(docs))
    ensures var after := FieldsOf(Remaining(docs, IdsOf(Matches(docs, title))));
      && UserActivity.AllReadable(after)
      && forall b :: b in UserActivity.RefreshedClearing(books, Some(after), None) ==> b.bookName != Some(title)
  {
    SurvivorsLackTitle(docs, title);
  }

  /** One turn of the delete loop: issuing the delete of the next match (or
      its failing) extends the set of deleted identifiers by it. */
  lemma DeleteStep(before: seq<StoredDocument>, matches: seq<StoredDocument>, i: nat, failed: set<DocId>)
    requires i < |matches|
    ensures matches[i].id !in failed ==>
      Remaining(Remaining(before, IdsOf(matches[..i]) - failed), {matches[i].id})
      == Remaining(before, IdsOf(matches[..i + 1]) - failed)
    ensures matches[i].id in failed ==>
      IdsOf(matches[..i]) - failed == IdsOf(matches[..i + 1]) - failed
  {
  }

  /** What the query's completion leads to. */
  datatype DeleteOutcome =
    | Closed(message: string)   // the message is shown and the screen finishes
    | Stayed(message: string)   // the message is shown and the screen stays open

  /** The delete screen's state: the title it was opened with, the three
      text fields (None while the layout's own text is shown) and whether
      it has been closed. */
  class DeleteScreen {
    var bookName: Option<string>
    var nameText: Option<string>
    var contentText: Option<string>
    var authorText: Option<string>
    var finished: bool

    /** `onCreate`: the fields are filled only when name, content and author
        all came with the intent. */
    constructor (extras: UserActivity.Extras)
      ensures bookName == extras.bookName && !finished
      ensures nameText.Some? <==>
        extras.bookName.Some? && extras.bookContent.Some? && extras.bookAuthor.Some?
      ensures nameText.Some? ==>
        nameText == extras.bookName && contentText == extras.bookContent && authorText == extras.bookAuthor
      ensures nameText.None? ==> contentText.None? && authorText.None?
    {
      bookName := extras.bookName;
      finished := false;
      if extras.bookName.Some? && extras.bookContent.Some? && extras.bookAuthor.Some? {
        nameText, contentText, authorText := extras.bookName, extras.bookContent, extras.bookAuthor;
      } else {
        nameText, contentText, authorText := None, None, None;
      }
    }

    /** The delete button: `delete` runs only when a title came with the intent. */
    method OnDeleteClicked(store: BookCollection, query: Result<()>, failedDeletes: set<DocId>)
      returns (outcome: Option<DeleteOutcome>)
      requires store.Valid()
      modifies this`finished, store
      ensures store.Valid()
      ensures bookName.None? ==>
        outcome.None? && store.documents == old(store.documents) && finished == old(finished)
      ensures bookName.Some? ==> outcome.Some?
      ensures bookName.Some? && query.Err? ==>
        outcome.value == Stayed(query.message) && store.documents == old(store.documents) && finished == old(finished)
      ensures bookName.Some? && query.Ok? ==>
        && outcome.value == Closed(DeletedMessage) && finished
        && store.documents
           == Remaining(old(store.documents), IdsOf(Matches(old(store.documents), bookName.value)) - failedDeletes)
    {
      if bookName.Some? {
        var o := Delete(store, bookName.value, query, failedDeletes);
        outcome := Some(o);
      } else {
        outcome := None;
      }
    }

    /** `delete(title)`: on the query's success, one delete per returned
        document (a failed one, named in `failedDeletes`, removes nothing and
        is not waited for), then the message and `finish()`; on its failure,
        the message only. */
    method Delete(store: BookCollection, title: string, query: Result<()>, failedDeletes: set<DocId>)
      returns (outcome: DeleteOutcome)
      requires store.Valid()
      modifies this`finished, store
      ensures store.Valid()
      ensures query.Err? ==>
        outcome == Stayed(query.message) && store.documents == old(store.documents) && finished == old(finished)
      ensures query.Ok? ==> outcome == Closed(DeletedMessage) && finished
      ensures query.Ok? ==>
        store.documents == Remaining(old(store.documents), IdsOf(Matches(old(store.documents), title)) - failedDeletes)
      ensures query.Ok? ==> forall d :: d in store.documents <==>
        d in old(store.documents) && (!HasTitle(d.fields, title) || d.id in failedDeletes)
    {
      if query.Err? {
        outcome := Stayed(query.message);
        return;
      }
      ghost var before := store.documents;
      var matches := Matches(store.documents, title);
      RemainingNone(before);
      assert IdsOf(matches[..0]) - failedDeletes == {};
      for i := 0 to |matches|
        invariant store.Valid()
        invariant store.documents == Remaining(before, IdsOf(matches[..i]) - failedDeletes)
      {
        DeleteStep(before, matches, i, failedDeletes);
        if matches[i].id !in failedDeletes {
          store.Delete(matches[i].id);
        }
      }
      assert matches[..|matches|] == matches;
      DeleteKeepsExactly(before, title, failedDeletes);
      outcome := Closed(DeletedMessage);
      finished := true;
    }
  }
}
