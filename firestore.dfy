/**
 The backend as the three screens see it: the documents of the
 `BookInformations` collection, the values stored in their fields, and the
 completion of asynchronous backend calls, which the screens receive in
 success and failure listeners.
 */
module Firestore {

  datatype Option<+T> = None | Some(value: T)

  /** The completion of an asynchronous backend call: its value, or the
      localized message of the exception handed to the failure listener. */
  datatype Result<+T> = Ok(value: T) | Err(message: string)

  /** The server time stamp stored under "date"; the screens never look inside it. */
  type Timestamp = int

  /** The field values the application writes or reads. */
  datatype Value = Null | Text(text: string) | Time(stamp: Timestamp)

  /** The fields of one document, by key. */
  type Document = map<string, Value>

  /** The store's own document identifier (never read by the screens, but
      `document.reference.delete()` deletes by it). */
  type DocId = string

  datatype StoredDocument = StoredDocument(id: DocId, fields: Document)

  const CollectionName := "BookInformations"

  /** `document[key] as String?` succeeds: the key is missing, holds null or
      holds a string. A time stamp under the key makes the cast throw. */
  predicate CastsToString(d: Document, key: string)
  {
    key !in d || !d[key].Time?
  }

  /** `document[key] as String?`: a missing key and a stored null both read as null. */
  function StringField(d: Document, key: string): (r: Option<string>)
    requires CastsToString(d, key)
    ensures r.None? <==> key !in d || d[key] == Null
    ensures r.Some? ==> d[key] == Text(r.value)
  {
    if key in d && d[key].Text? then Some(d[key].text) else None
  }

  /** The identifiers of a sequence of documents. */
  function IdsOf(docs: seq<StoredDocument>): set<DocId>
  {
    set d | d in docs :: d.id
  }

  /** No two documents of the collection share an identifier. */
  predicate UniqueIds(docs: seq<StoredDocument>)
  {
    docs == [] || (docs[0].id !in IdsOf(docs[1..]) && UniqueIds(docs[1..]))
  }

  /** The documents of `docs` whose identifier is not in `ids`, in their order. */
  function Remaining(docs: seq<StoredDocument>, ids: set<DocId>): (r: seq<StoredDocument>)
    ensures |r| <= |docs|
    ensures forall d :: d in r <==> d in docs && d.id !in ids
  {
    if docs == [] then []
    else if docs[0].id in ids then Remaining(docs[1..], ids)
    else [docs[0]] + Remaining(docs[1..], ids)
  }

  /** Deleting no identifier leaves every document. */
  lemma {:induction false} RemainingNone(docs: seq<StoredDocument>)
    ensures Remaining(docs, {}) == docs
  {
    if docs != [] {
      RemainingNone(docs[1..]);
      assert [docs[0]] + docs[1..] == docs;
    }
  }

  /** Deleting one set of identifiers and then another is deleting both. */
  lemma {:induction false} RemainingTwice(docs: seq<StoredDocument>, first: set<DocId>, second: set<DocId>)
    ensures Remaining(Remaining(docs, first), second) == Remaining(docs, first + second)
  {
    if docs != [] {
      RemainingTwice(docs[1..], first, second);
    }
  }

  /** Deleting documents never makes two of the rest share an identifier. */
  lemma {:induction false} RemainingKeepsUniqueIds(docs: seq<StoredDocument>, ids: set<DocId>)
    requires UniqueIds(docs)
    ensures UniqueIds(Remaining(docs, ids))
  {
    if docs != [] {
      RemainingKeepsUniqueIds(docs[1..], ids);
      var rest := Remaining(docs[1..], ids);
      if docs[0].id !in ids {
        assert [docs[0]] + rest == Remaining(docs, ids);
        assert ([docs[0]] + rest)[1..] == rest;
      }
    }
  }

  /** The `BookInformations` collection: its documents in store order. */
  class BookCollection {
    var documents: seq<StoredDocument>

    ghost predicate Valid()
      reads this
    {
      UniqueIds(documents)
    }

    constructor (initial: seq<StoredDocument>)
      requires UniqueIds(initial)
      ensures Valid() && documents == initial
    {
      documents := initial;
    }

    /** `document.reference.delete()`: the document with this identifier is
        gone; every other document stays, in its order. */
    method Delete(id: DocId)
      requires Valid()
      modifies this
      ensures Valid()
      ensures documents == Remaining(old(documents), {id})
    {
      RemainingKeepsUniqueIds(documents, {id});
      documents := Remaining(documents, {id});
    }
  }
}
