# Book application screens: a Dafny model

The application is an Android client for a shared list of books. It talks
directly to a hosted backend: a document collection `BookInformations`, a blob
store for photos, and a sign-in service that gives the current user's display
name. This project models the logic in three screens and proves what that
logic promises:

- **Listing** (`UserActivity`). A standing snapshot listener rebuilds the
  `books` list from the collection's documents, newest first. Tapping a row
  opens the delete screen only for the book's owner.
- **Creation** (`AddBookActivity`). A word-count alert warns about long
  content but never blocks saving. The gallery permission and pick results are
  handled here. `save` uploads the chosen photo to `photos/<uuid>.jpg`,
  resolves its download URL, and only then writes the book document; with no
  photo it writes at once.
- **Deletion** (`DeleteActivity`). The screen shows the tapped book. Its
  delete button queries every document whose `bookName` equals the title and
  deletes each one.

The backend is abstract here:

- A document is a map from key to `Value` (`Null`, `Text` or `Time`).
- The collection is a `BookCollection` object whose documents carry the
  store's identifiers.
- Every asynchronous completion (snapshot or error, upload, URL lookup, write,
  query, individual delete) is a parameter of the operation that receives it.
- Messages, navigation and `finish()` are outcome values. `save` returns the
  ordered list of calls it makes (`Effect`).

Files: `firestore.dfy` (backend values, the collection and removal by
identifier), `book_model.dfy` (the `Book` record and how a document is read),
`user_activity.dfy`, `add_book_activity.dfy`, `delete_activity.dfy`.

Points where the code behaves in a way a reader might not expect; the model
follows the code in each:

- `document[key] as String?` throws on a value that is neither null nor a
  string. The model requires that every field the listing reads can be cast
  (`Readable`).
- `save` checks nothing about the form. The model writes whatever it holds,
  empty texts included.
- The alert dialog's text speaks of 100 words. The limit in the code is
  `maxWordCount = 20`, and the model uses 20.
- Owners are compared with `displayName.toString()`, so a missing display
  name is compared, and written, as the text `"null"` (`OwnerName`).
- An empty snapshot leaves the list as it was (see Findings).
- Deleting a book deletes every book with the same title, whoever owns it.
  The query matches on the title alone (`DeleteActivity.kt:124`); the owner
  is checked only when a row is tapped (`UserActivity.kt:176`)
  (`OtherOwnersSameTitleDeleted`).
- A blank content counts as one token, because Kotlin's `split` of an empty
  text yields one empty token.
- The word count splits on `\s` as Android's ICU-backed regular expressions
  read it: every character with the Unicode White_Space property, such as the
  ideographic space U+3000, not only the six ASCII spaces of a desktop Java
  runtime. `trim()` removes a slightly different set: it keeps NEXT LINE
  (U+0085), which `\s` matches, so a text that is only NEXT LINE counts two
  empty tokens.

## Model

| member | source | states |
|---|---|---|
| `Firestore.StringField` | FirebaseBookApplication/app/src/main/java/com/begumsaraunal/firebasebookapplication/view/UserActivity.kt:155-159 | reading a key as `String?` gives null exactly when the key is missing or holds null, and otherwise the stored text |
| `Firestore.Remaining` | FirebaseBookApplication/app/src/main/java/com/begumsaraunal/firebasebookapplication/view/DeleteActivity.kt:126-129 | after deleting by identifier, a document remains iff it was there and its identifier was not deleted; no document is added |
| `Firestore.RemainingTwice` | FirebaseBookApplication/app/src/main/java/com/begumsaraunal/firebasebookapplication/view/DeleteActivity.kt:126-129 | deleting one set of identifiers and then another equals deleting their union, so deletes issued one by one compose |
| `Firestore.RemainingKeepsUniqueIds` | FirebaseBookApplication/app/src/main/java/com/begumsaraunal/firebasebookapplication/view/DeleteActivity.kt:128 | deleting documents keeps the store's identifiers unique |
| `Firestore.BookCollection.Delete` | FirebaseBookApplication/app/src/main/java/com/begumsaraunal/firebasebookapplication/view/DeleteActivity.kt:128 | `document.reference.delete()` removes exactly the document with that identifier; the others stay in order and identifiers stay unique |
| `BookModel.BookOf` | FirebaseBookApplication/app/src/main/java/com/begumsaraunal/firebasebookapplication/view/UserActivity.kt:155-161 | each of the five fields reads as None when its key is missing or holds null, and otherwise as the stored text |
| `BookModel.OwnerName` | FirebaseBookApplication/app/src/main/java/com/begumsaraunal/firebasebookapplication/view/UserActivity.kt:176 | the owner text is the display name when there is one; it is `"null"` exactly when there is none or the name is itself "null", so those two users are indistinguishable (the same text is written at AddBookActivity.kt:237) |
| `UserActivity.BooksFrom` | FirebaseBookApplication/app/src/main/java/com/begumsaraunal/firebasebookapplication/view/UserActivity.kt:153-164 | one book per document, as many books as documents, the i-th book built from the i-th document (store order kept) |
| `UserActivity.Refreshed` | FirebaseBookApplication/app/src/main/java/com/begumsaraunal/firebasebookapplication/view/UserActivity.kt:136-166 | the list after one notification is either the old list or, only for an error-free non-null snapshot, a list of that snapshot's length; `ErrorKeepsBooks`, `EmptySnapshotKeepsBooks` and `SnapshotReplacesBooks` fix it on an error, on a null or empty snapshot, and otherwise to one book per document |
| `UserActivity.ErrorKeepsBooks` | FirebaseBookApplication/app/src/main/java/com/begumsaraunal/firebasebookapplication/view/UserActivity.kt:136-140 | an error notification leaves `books` exactly as it was |
| `UserActivity.EmptySnapshotKeepsBooks` | FirebaseBookApplication/app/src/main/java/com/begumsaraunal/firebasebookapplication/view/UserActivity.kt:145 | a null or empty snapshot leaves `books` as it was; the list is not cleared |
| `UserActivity.SnapshotReplacesBooks` | FirebaseBookApplication/app/src/main/java/com/begumsaraunal/firebasebookapplication/view/UserActivity.kt:149-164 | after a non-empty snapshot, `books` has one entry per document, in snapshot order, whatever it held before |
| `UserActivity.RefreshIdempotent` | FirebaseBookApplication/app/src/main/java/com/begumsaraunal/firebasebookapplication/view/UserActivity.kt:151-152 | delivering the same notification twice gives the same list as delivering it once (the list is cleared first, so nothing is duplicated) |
| `UserActivity.RefreshChangesOnlyOnData` | FirebaseBookApplication/app/src/main/java/com/begumsaraunal/firebasebookapplication/view/UserActivity.kt:136-166 | the list changes only on an error-free, non-null, non-empty snapshot |
| `UserActivity.RefreshedClearing` | FirebaseBookApplication/app/src/main/java/com/begumsaraunal/firebasebookapplication/view/UserActivity.kt:136-166 | the listing a listener would keep if an empty snapshot cleared it: after any error-free notification with a non-null snapshot it has one book per document, in order |
| `UserActivity.ClearingDiffersOnlyOnEmpty` | FirebaseBookApplication/app/src/main/java/com/begumsaraunal/firebasebookapplication/view/UserActivity.kt:145 | the listener as written and the clearing one disagree exactly when an error-free empty snapshot reaches a non-empty list |
| `UserActivity.Tap` | FirebaseBookApplication/app/src/main/java/com/begumsaraunal/firebasebookapplication/view/UserActivity.kt:174-192 | the delete screen opens iff the book's owner equals the display name as text; it then carries the book's name, author, content and photo URL; a book without owner is always rejected; a rejection carries the "not yours" message |
| `UserActivity.UserScreen.constructor` | FirebaseBookApplication/app/src/main/java/com/begumsaraunal/firebasebookapplication/view/UserActivity.kt:51-55 | the screen starts with an empty list and null fields |
| `UserActivity.UserScreen.OnSnapshot` | FirebaseBookApplication/app/src/main/java/com/begumsaraunal/firebasebookapplication/view/UserActivity.kt:134-168 | the clear-then-append loop leaves `books` as the listing function of the old list and the notification; an error shows its message; a rebuild tells the adapter and leaves the four activity fields holding the last document's values; otherwise those fields are unchanged |
| `UserActivity.UserScreen.OnItemClick` | FirebaseBookApplication/app/src/main/java/com/begumsaraunal/firebasebookapplication/view/UserActivity.kt:174-192 | a tap at a shown position opens the delete screen iff `books[position]`'s owner is the current user, as decided by `Tap` |
| `AddBookActivity.LeadingSpaces` | FirebaseBookApplication/app/src/main/java/com/begumsaraunal/firebasebookapplication/view/AddBookActivity.kt:107 | the count covers whitespace characters only and stops at the first non-whitespace character |
| `AddBookActivity.TrailingStart` | FirebaseBookApplication/app/src/main/java/com/begumsaraunal/firebasebookapplication/view/AddBookActivity.kt:107 | everything from the returned index on is whitespace, and the character just before it is not |
| `AddBookActivity.TrimStart` | FirebaseBookApplication/app/src/main/java/com/begumsaraunal/firebasebookapplication/view/AddBookActivity.kt:107 | the result is a suffix of the text; everything cut off is whitespace; the result does not start with whitespace |
| `AddBookActivity.TrimEnd` | FirebaseBookApplication/app/src/main/java/com/begumsaraunal/firebasebookapplication/view/AddBookActivity.kt:107 | the result is a prefix of the text; everything cut off is whitespace; the result does not end with whitespace |
| `AddBookActivity.Trim` | FirebaseBookApplication/app/src/main/java/com/begumsaraunal/firebasebookapplication/view/AddBookActivity.kt:107 | the trimmed text is the slice of the text between a whitespace-only prefix and a whitespace-only suffix, and it is empty or starts and ends with a non-whitespace character |
| `AddBookActivity.LeadingRegexSpaces` | FirebaseBookApplication/app/src/main/java/com/begumsaraunal/firebasebookapplication/view/AddBookActivity.kt:107 | the count covers `\s` characters only and stops at the first non-`\s` character |
| `AddBookActivity.DropSpaces` | FirebaseBookApplication/app/src/main/java/com/begumsaraunal/firebasebookapplication/view/AddBookActivity.kt:107 | one greedy `\s+` match at the start removes a prefix of `\s` characters and stops at a non-`\s` character |
| `AddBookActivity.SplitFrom` | FirebaseBookApplication/app/src/main/java/com/begumsaraunal/firebasebookapplication/view/AddBookActivity.kt:107 | a split always yields at least one token |
| `AddBookActivity.Split` | FirebaseBookApplication/app/src/main/java/com/begumsaraunal/firebasebookapplication/view/AddBookActivity.kt:107 | splitting on `\s+` yields at least one token and no token holds a `\s` character; `SplitCount` gives the number of tokens and `SplitRoundTrip` fixes where each token starts and ends |
| `AddBookActivity.SplitCount` | FirebaseBookApplication/app/src/main/java/com/begumsaraunal/firebasebookapplication/view/AddBookActivity.kt:107 | splitting on `\s+` yields one token more than there are maximal runs of `\s` |
| `AddBookActivity.SplitKeepsText` | FirebaseBookApplication/app/src/main/java/com/begumsaraunal/firebasebookapplication/view/AddBookActivity.kt:107 | the tokens laid end to end are the text without its `\s` characters: nothing else is lost, added or reordered |
| `AddBookActivity.SplitRoundTrip` | FirebaseBookApplication/app/src/main/java/com/begumsaraunal/firebasebookapplication/view/AddBookActivity.kt:107 | the text is exactly its tokens joined by separators, one fewer separator than tokens, and every separator is a non-empty run of `\s` characters; with `SplitTokensHaveNoSpace` this makes each separator a maximal run and fixes every token's boundaries |
| `AddBookActivity.SplitTokensHaveNoSpace` | FirebaseBookApplication/app/src/main/java/com/begumsaraunal/firebasebookapplication/view/AddBookActivity.kt:107 | no token contains a `\s` character |
| `AddBookActivity.SplitTokensNonEmpty` | FirebaseBookApplication/app/src/main/java/com/begumsaraunal/firebasebookapplication/view/AddBookActivity.kt:107 | a non-empty text that neither starts nor ends with `\s` splits into non-empty tokens only |
| `AddBookActivity.WordCountIsRunsPlusOne` | FirebaseBookApplication/app/src/main/java/com/begumsaraunal/firebasebookapplication/view/AddBookActivity.kt:107 | a null text counts 0 tokens; any other text counts one more than the whitespace runs of its trimmed form, so a blank text counts 1 |
| `AddBookActivity.TokensAreWords` | FirebaseBookApplication/app/src/main/java/com/begumsaraunal/firebasebookapplication/view/AddBookActivity.kt:107 | the tokens are space-free and, laid end to end, are the trimmed text without its `\s` characters; for a non-blank text that does not start or end with NEXT LINE none is empty |
| `AddBookActivity.NextLineSplitsIntoEmptyTokens` | FirebaseBookApplication/app/src/main/java/com/begumsaraunal/firebasebookapplication/view/AddBookActivity.kt:107 | NEXT LINE survives `trim()` but is a `\s` separator, so a text made of it alone splits into two empty tokens |
| `AddBookActivity.WordCount` | FirebaseBookApplication/app/src/main/java/com/begumsaraunal/firebasebookapplication/view/AddBookActivity.kt:107 | the count is 0 exactly for a null text; `WordCountIsRunsPlusOne` gives it as one more than the whitespace runs of the trimmed text |
| `AddBookActivity.ContentAlert` | FirebaseBookApplication/app/src/main/java/com/begumsaraunal/firebasebookapplication/view/AddBookActivity.kt:108-110 | the alert only ever fires for a non-null text that is not blank after `trim()`; `ContentAlertIff` gives the exact condition |
| `AddBookActivity.ContentAlertIff` | FirebaseBookApplication/app/src/main/java/com/begumsaraunal/firebasebookapplication/view/AddBookActivity.kt:105-111 | the alert fires iff the text is non-null and its trimmed form has at least `maxWordCount` (20) whitespace runs, i.e. more than 20 tokens |
| `AddBookActivity.Upload` | FirebaseBookApplication/app/src/main/java/com/begumsaraunal/firebasebookapplication/view/AddBookActivity.kt:277-280 | true iff the grant results are non-empty and the first is `PERMISSION_GRANTED` |
| `AddBookActivity.OpensGallery` | FirebaseBookApplication/app/src/main/java/com/begumsaraunal/firebasebookapplication/view/AddBookActivity.kt:262-276 | the gallery pick starts iff the request code is 1 and `upload` holds, so never for an empty (cancelled) answer |
| `AddBookActivity.PhotoPath` | FirebaseBookApplication/app/src/main/java/com/begumsaraunal/firebasebookapplication/view/AddBookActivity.kt:172-174 | the storage path is `photos/`, the generated name, then `.jpg` |
| `AddBookActivity.PhotoPathInjective` | FirebaseBookApplication/app/src/main/java/com/begumsaraunal/firebasebookapplication/view/AddBookActivity.kt:172-174 | distinct generated names give distinct paths, so no upload overwrites another photo |
| `AddBookActivity.Payload` | FirebaseBookApplication/app/src/main/java/com/begumsaraunal/firebasebookapplication/view/AddBookActivity.kt:236-245 | the document always has the keys username, bookName, bookAuthor, bookContent and date and no others, except `bookPhotoUrl`, present iff a URL was given and then equal to it; date holds the write's time stamp; the four text keys hold the owner and the entered title, author and content |
| `AddBookActivity.WriteEffects` | FirebaseBookApplication/app/src/main/java/com/begumsaraunal/firebasebookapplication/view/AddBookActivity.kt:246-254 | the add to `BookInformations` with the payload is followed by exactly one completion effect: `finish()` iff the write succeeded, otherwise the failure's message |
| `AddBookActivity.SaveEffects` | FirebaseBookApplication/app/src/main/java/com/begumsaraunal/firebasebookapplication/view/AddBookActivity.kt:169-203 | `save` ends with `finish()` iff the write succeeded and, with a chosen photo, the upload and the URL lookup succeeded too; `finish()` happens nowhere earlier; `SaveWithPhoto` and `SaveWithoutPhoto` give the order of the calls |
| `AddBookActivity.WrittenBookReadsBack` | FirebaseBookApplication/app/src/main/java/com/begumsaraunal/firebasebookapplication/view/AddBookActivity.kt:236-245 | a written document is readable by the listing, and it reads back as the book with the owner, title, author, content and photo URL it was written with |
| `AddBookActivity.SaveWithoutPhoto` | FirebaseBookApplication/app/src/main/java/com/begumsaraunal/firebasebookapplication/view/AddBookActivity.kt:199-202 | with no chosen photo, the first call is the write, its document has no photo URL, and no upload or URL lookup happens |
| `AddBookActivity.SaveWithPhoto` | FirebaseBookApplication/app/src/main/java/com/begumsaraunal/firebasebookapplication/view/AddBookActivity.kt:175-197 | with a chosen photo, the upload to `photos/<uuid>.jpg` comes first; a write happens iff the upload and the URL lookup both succeed; then the lookup uses the same path and the written URL is the resolved one; either failure shows its message and ends the sequence |
| `AddBookActivity.LongContentIsWritten` | FirebaseBookApplication/app/src/main/java/com/begumsaraunal/firebasebookapplication/view/AddBookActivity.kt:169-203 | content over the word limit is still written, as the first call without a photo and as the third call after a successful upload and URL lookup: the alert is advisory only |
| `AddBookActivity.OwnerCanOpenOwnBook` | FirebaseBookApplication/app/src/main/java/com/begumsaraunal/firebasebookapplication/view/UserActivity.kt:176-183 | a book written by a user opens that user's delete screen with the entered texts and photo URL; a user whose display name reads differently is rejected |
| `AddBookActivity.AddBookScreen.constructor` | FirebaseBookApplication/app/src/main/java/com/begumsaraunal/firebasebookapplication/view/AddBookActivity.kt:67 | no photo is chosen when the screen opens |
| `AddBookActivity.AddBookScreen.OnActivityResult` | FirebaseBookApplication/app/src/main/java/com/begumsaraunal/firebasebookapplication/view/AddBookActivity.kt:288-305 | only a successful answer (code 2, `RESULT_OK`, intent present) replaces the chosen photo, with the intent's data, which may be null; anything else leaves it |
| `AddBookActivity.AddBookScreen.SaveToDatabase` | FirebaseBookApplication/app/src/main/java/com/begumsaraunal/firebasebookapplication/view/AddBookActivity.kt:233-255 | the map built key by key is the payload; it is added to `BookInformations`; then the screen finishes on success or shows the failure's message |
| `AddBookActivity.AddBookScreen.Save` | FirebaseBookApplication/app/src/main/java/com/begumsaraunal/firebasebookapplication/view/AddBookActivity.kt:169-203 | the calls made are those of the upload, URL lookup and write sequence for the currently chosen photo |
| `DeleteActivity.HasTitle` | FirebaseBookApplication/app/src/main/java/com/begumsaraunal/firebasebookapplication/view/DeleteActivity.kt:124 | for a readable document, the query's condition holds iff the listing reads its title as exactly that text |
| `DeleteActivity.Matches` | FirebaseBookApplication/app/src/main/java/com/begumsaraunal/firebasebookapplication/view/DeleteActivity.kt:123-124 | the query returns exactly the stored documents whose `bookName` is the given title |
| `DeleteActivity.DeletingMatchesLeavesUnmatched` | FirebaseBookApplication/app/src/main/java/com/begumsaraunal/firebasebookapplication/view/DeleteActivity.kt:122-129 | deleting every returned document leaves exactly the documents with another title, in their order |
| `DeleteActivity.DeleteKeepsExactly` | FirebaseBookApplication/app/src/main/java/com/begumsaraunal/firebasebookapplication/view/DeleteActivity.kt:122-129 | a document survives iff its title differs or its own delete failed: other titles are never deleted, and every match whose delete succeeds is gone |
| `DeleteActivity.OtherOwnersSameTitleDeleted` | FirebaseBookApplication/app/src/main/java/com/begumsaraunal/firebasebookapplication/view/DeleteActivity.kt:122-129 | deleting one's own book also deletes any other owner's book with the same title unless that book's own delete fails, because the query matches on the title alone |
| `DeleteActivity.SurvivorsLackTitle` | FirebaseBookApplication/app/src/main/java/com/begumsaraunal/firebasebookapplication/view/DeleteActivity.kt:122-129 | once every match is deleted, the books built from the remaining documents include none with that title |
| `DeleteActivity.DeletedTitleNotListed` | FirebaseBookApplication/app/src/main/java/com/begumsaraunal/firebasebookapplication/view/UserActivity.kt:136-166 | when a document of another title survives the deletion, the listener's next notification leaves the screen's list without the deleted title |
| `DeleteActivity.LastTitleStaysListed` | FirebaseBookApplication/app/src/main/java/com/begumsaraunal/firebasebookapplication/view/UserActivity.kt:145 | when every document has the deleted title, the collection ends up empty, the listener keeps the list, and the deleted book stays listed |
| `DeleteActivity.DeletedTitleNeverListed` | FirebaseBookApplication/app/src/main/java/com/begumsaraunal/firebasebookapplication/view/UserActivity.kt:145-165 | with a listener that clears on an empty snapshot, the deleted title is never listed after the deletion |
| `DeleteActivity.DeleteScreen.constructor` | FirebaseBookApplication/app/src/main/java/com/begumsaraunal/firebasebookapplication/view/DeleteActivity.kt:100-109 | the three text fields are filled iff name, content and author all came with the intent |
| `DeleteActivity.DeleteScreen.OnDeleteClicked` | FirebaseBookApplication/app/src/main/java/com/begumsaraunal/firebasebookapplication/view/DeleteActivity.kt:110-114 | the button deletes only when a title came with the intent; otherwise nothing happens |
| `DeleteActivity.DeleteScreen.Delete` | FirebaseBookApplication/app/src/main/java/com/begumsaraunal/firebasebookapplication/view/DeleteActivity.kt:122-143 | on query failure nothing is deleted, the message is shown and the screen stays; on success one delete is issued per match, the confirmation is shown and the screen finishes without waiting for the deletes, and exactly the matches whose delete succeeded are gone |

## Left out

- Sign-in and sign-up screens (`MainActivity.kt`, `CreateAccountActivity.kt`): thin wrappers over the sign-in service; they are not part of this model.
- `RecyclerAdapter.kt`: row binding and image loading; its only logic (row count is `books.size`, a tap reports its position) is implied by `books` and `OnItemClick`.
- Menus, toolbars, intents and navigation, the alert dialog, toasts and `notifyDataSetChanged`: only the outcome values (`ClickOutcome`, `ListenerEffect`, `Effect`, `DeleteOutcome`) remain.
- Listener registration and lifetime, callback threading, and callbacks that arrive after the screen is gone: the model takes each delivered completion as a parameter.
- Ordering by `date`: the store does this. The model takes a snapshot's documents in the order delivered and proves that this order is kept.
- `Timestamp.now()` and `UUID.randomUUID()` are parameters (`now`, `uuid`).
- `addImage`'s permission check and request, bitmap decoding and image display: platform calls with no logic of the screen's own beyond what `OpensGallery` models.
- `Firestore.StringField`: requires that the value is not a time stamp. In the source that cast throws a `ClassCastException` inside the snapshot listener, which runs on the main thread and does not catch it, so the application crashes; the model excludes the case instead of modelling the crash. Field types other than null, string and time stamp are not modelled.
- `UserActivity.UserScreen.OnSnapshot`: requires every document of an error-free snapshot to be `Readable`, for the same reason.
- `UserActivity.UserScreen.OnSnapshot` models the listener as written, keeping the list on an empty snapshot; `RefreshedClearing` is the corrected listing, and only the lemmas about it use it.
- `UserActivity.UserScreen.OnItemClick`: requires a shown position. The adapter only reports those; any other position would throw in the source.
- `auth.currentUser!!` would throw with nobody signed in. The model assumes a signed-in user and takes the display name as a parameter.
- Individual deletes are fire-and-forget. Their failures are a parameter set (`failedDeletes`), and the screen's outcome does not depend on them.

## Findings

| source | as written | input that shows it | evidently intended | confidence | as-written member | corrected member |
|---|---|---|---|---|---|---|
| FirebaseBookApplication/app/src/main/java/com/begumsaraunal/firebasebookapplication/view/UserActivity.kt:145 | the list is rebuilt only for a non-empty snapshot, so an empty one keeps the old rows | a collection holding one book "Dune"; its owner deletes it; the next snapshot is empty and "Dune" stays listed | an error-free snapshot, empty or not, replaces the list, so a deleted book disappears | high, not executed | `DeleteActivity.LastTitleStaysListed` | `UserActivity.RefreshedClearing`, with `DeleteActivity.DeletedTitleNeverListed` |
