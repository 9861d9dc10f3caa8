/**
 The creation screen: the advisory word-count alert on the content field,
 the gallery permission and pick results, and `save`, which uploads the
 chosen photo, resolves its download URL and then writes the book document.
 */
module AddBookActivity {
  import opened Firestore
  import opened BookModel
  import UserActivity

  const MaxWordCount := 20

  // Android constants the screen compares against.
  const PermissionGranted := 0
  const ResultOk := -1
  const PermissionRequestCode := 1
  const PickImageRequestCode := 2

  type Uri = string

  /** What the user typed into the three text fields. */
  datatype Form = Form(title: string, author: string, content: string)

  /** The gallery's answer to the pick request; `data` is `intent.data`. */
  datatype PickResult = PickResult(data: Option<Uri>)

  /** The calls the screen makes on the backend and on itself, in order. */
  datatype Effect =
    | PutFile(path: string, file: Uri)
    | GetDownloadUrl(path: string)
    | AddDocument(collection: string, payload: Document)
    | Toast(text: string)
    | Finish

  // ---------------------------------------------------------------------
  // Word count of the content field

  /** Kotlin's `Char.isWhitespace()`, which `trim()` strips: Java's
      `Character.isWhitespace` or `Character.isSpaceChar`. */
  predicate IsWhitespace(c: char)
  {
    var n := c as int;
    || 0x09 <= n <= 0x0D || 0x1C <= n <= 0x20
    || n == 0xA0 || n == 0x1680 || 0x2000 <= n <= 0x200A
    || n == 0x2028 || n == 0x2029 || n == 0x202F || n == 0x205F || n == 0x3000
  }

  /** One character of the regular expression `\s` in Android's ICU-backed
      `java.util.regex`: a character with the Unicode White_Space property.
      Unlike `IsWhitespace` it holds for NEXT LINE (U+0085) and not for the
      separators U+001C to U+001F. */
  predicate IsRegexSpace(c: char)
  {
    var n := c as int;
    || 0x09 <= n <= 0x0D || n == 0x20 || n == NextLine || n == 0xA0 || n == 0x1680
    || 0x2000 <= n <= 0x200A || n == 0x2028 || n == 0x2029 || n == 0x202F || n == 0x205F || n == 0x3000
  }

  /** NEXT LINE: `\s` matches it, `trim()` keeps it. */
  const NextLine := 0x85

  /** Every character is whitespace. */
  predicate AllWhitespace(t: string)
  {
    forall k :: 0 <= k < |t| ==> IsWhitespace(t[k])
  }

  /** The number of whitespace characters `s` starts with. */
  function LeadingSpaces(s: string): (n: nat)
    ensures n <= |s|
    ensures forall k :: 0 <= k < n ==> IsWhitespace(s[k])
    ensures n < |s| ==> !IsWhitespace(s[n])
  {
    if s != [] && IsWhitespace(s[0]) then 1 + LeadingSpaces(s[1..]) else 0
  }

  /** Where the whitespace `s` ends with begins. */
  function TrailingStart(s: string): (n: nat)
    ensures n <= |s|
    ensures forall k :: n <= k < |s| ==> IsWhitespace(s[k])
    ensures 0 < n ==> !IsWhitespace(s[n - 1])
  {
    if s != [] && IsWhitespace(s[|s| - 1]) then TrailingStart(s[..|s| - 1]) else |s|
  }

  /** The leading whitespace removed. */
  function TrimStart(s: string): (r: string)
    ensures |r| <= |s| && r == s[|s| - |r|..]
    ensures AllWhitespace(s[..|s| - |r|])
    ensures r == [] || !IsWhitespace(r[0])
  {
    s[LeadingSpaces(s)..]
  }

  /** The trailing whitespace removed. */
  function TrimEnd(s: string): (r: string)
    ensures |r| <= |s| && r == s[..|r|]
    ensures AllWhitespace(s[|r|..])
    ensures r == [] || !IsWhitespace(r[|r| - 1])
  {
    s[..TrailingStart(s)]
  }

  /** Kotlin's `trim()`: the text between the first and the last
      non-whitespace character. */
  function Trim(s: string): (r: string)
    ensures r == [] || (!IsWhitespace(r[0]) && !IsWhitespace(r[|r| - 1]))
    ensures exists a, b :: 0 <= a <= b <= |s| && r == s[a..b] && AllWhitespace(s[..a]) && AllWhitespace(s[b..])
  {
    var a := LeadingSpaces(s);
    TrimIsSlice(s, a, TrailingStart(s[a..]));
    TrimEnd(TrimStart(s))
  }

  /** `trim()` keeps the slice between the leading and the trailing whitespace. */
  lemma TrimIsSlice(s: string, a: nat, n: nat)
    requires a == LeadingSpaces(s) && n == TrailingStart(s[a..])
    ensures a + n <= |s| && TrimEnd(TrimStart(s)) == s[a..a + n]
    ensures AllWhitespace(s[..a]) && AllWhitespace(s[a + n..])
  {
    LeadingIsWhitespace(s);
    TrailingIsWhitespace(s, a);
    var t := s[a..];
    assert TrimStart(s) == t;
    assert TrimEnd(t) == t[..n];
    TakeOfDrop(s, a, n);
  }

  /** Taking `n` after dropping `a` is the slice from `a` to `a + n`. */
  lemma TakeOfDrop(s: string, a: nat, n: nat)
    requires a + n <= |s|
    ensures s[a..][..n] == s[a..a + n]
  {
  }

  lemma LeadingIsWhitespace(s: string)
    ensures AllWhitespace(s[..LeadingSpaces(s)])
  {
    var a := LeadingSpaces(s);
    forall k | 0 <= k < a
      ensures IsWhitespace(s[..a][k])
    {
      assert s[..a][k] == s[k];
    }
  }

  lemma TrailingIsWhitespace(s: string, a: nat)
    requires a <= |s|
    ensures a + TrailingStart(s[a..]) <= |s| && AllWhitespace(s[a + TrailingStart(s[a..])..])
  {
    var t := s[a..];
    var b := a + TrailingStart(t);
    forall k | 0 <= k < |s| - b
      ensures IsWhitespace(s[b..][k])
    {
      assert s[b..][k] == t[b - a + k];
    }
  }

  /** The number of `\s` characters `s` starts with. */
  function LeadingRegexSpaces(s: string): (n: nat)
    ensures n <= |s|
    ensures forall k :: 0 <= k < n ==> IsRegexSpace(s[k])
    ensures n < |s| ==> !IsRegexSpace(s[n])
  {
    if s != [] && IsRegexSpace(s[0]) then 1 + LeadingRegexSpaces(s[1..]) else 0
  }

  /** The rest of the text after one maximal match of `\s+` at its start. */
  function DropSpaces(s: string): (r: string)
    ensures |r| <= |s| && r == s[|s| - |r|..]
    ensures forall k :: 0 <= k < |s| - |r| ==> IsRegexSpace(s[k])
    ensures r == [] || !IsRegexSpace(r[0])
  {
    s[LeadingRegexSpaces(s)..]
  }

  /** `split("\\s+".toRegex())` of `s`, where `current` is the part of the
      first token already read. Kotlin keeps empty tokens. */
  function SplitFrom(s: string, current: string): (r: seq<string>)
    ensures |r| >= 1
    decreases |s|
  {
    if s == [] then [current]
    else if IsRegexSpace(s[0]) then [current] + SplitFrom(DropSpaces(s), [])
    else SplitFrom(s[1..], current + [s[0]])
  }

  /** `s.split("\\s+".toRegex())`: never empty, and no token holds a separator. */
  function Split(s: string): (r: seq<string>)
    ensures |r| >= 1
    ensures forall t :: t in r ==> NoRegexSpace(t)
  {
    SplitTokensHaveNoSpace(s, []);
    SplitFrom(s, [])
  }

  /** The number of maximal runs of `\s` characters in `s`, counted by where
      each run ends. */
  function SpaceRuns(s: string): nat
  {
    if s == [] then 0
    else (if IsRegexSpace(s[0]) && (|s| == 1 || !IsRegexSpace(s[1])) then 1 else 0) + SpaceRuns(s[1..])
  }

  /** The characters of `s` that are not `\s`, in order. */
  function NonSpace(s: string): string
  {
    if s == [] then [] else (if IsRegexSpace(s[0]) then [] else [s[0]]) + NonSpace(s[1..])
  }

  /** All the tokens laid end to end. */
  function Concat(tokens: seq<string>): string
  {
    if tokens == [] then [] else tokens[0] + Concat(tokens[1..])
  }

  predicate NoRegexSpace(t: string)
  {
    forall k :: 0 <= k < |t| ==> !IsRegexSpace(t[k])
  }

  /** `p0?.trim()?.split(...) ?: emptyList()`, counted: a null text has no
      tokens, any other text at least one (an empty text is one empty token). */
  function WordCount(text: Option<string>): (r: nat)
    ensures text.None? <==> r == 0
  {
    match text
    case None => 0
    case Some(t) => |Split(Trim(t))|
  }

  /** `onTextChanged`: the alert is shown when the content has more than
      `maxWordCount` tokens. It only warns; nothing else consults it. */
  predicate ContentAlert(text: Option<string>)
    ensures ContentAlert(text) ==> text.Some? && Trim(text.value) != []
  {
    WordCount(text) > MaxWordCount
  }

  /** A leading `\s` character is part of the run `DropSpaces` removes. */
  lemma DropSpacesStep(s: string)
    requires s != [] && IsRegexSpace(s[0])
    ensures DropSpaces(s) == DropSpaces(s[1..])
  {
    assert s[1 + LeadingRegexSpaces(s[1..])..] == s[1..][LeadingRegexSpaces(s[1..])..];
  }

  lemma {:induction false} DropSpacesRuns(s: string)
    requires s != [] && IsRegexSpace(s[0])
    ensures SpaceRuns(s) == 1 + SpaceRuns(DropSpaces(s))
    decreases |s|
  {
    DropSpacesStep(s);
    if |s| > 1 && IsRegexSpace(s[1]) {
      DropSpacesRuns(s[1..]);
    }
  }

  lemma {:induction false} DropSpacesNonSpace(s: string)
    ensures NonSpace(DropSpaces(s)) == NonSpace(s)
    decreases |s|
  {
    if s != [] && IsRegexSpace(s[0]) {
      DropSpacesStep(s);
      DropSpacesNonSpace(s[1..]);
    }
  }

  /** Each maximal run of `\s` ends one token: there is one token more than
      there are runs. */
  lemma {:induction false} SplitCount(s: string, current: string)
    ensures |SplitFrom(s, current)| == 1 + SpaceRuns(s)
    decreases |s|
  {
    if s == [] {
    } else if IsRegexSpace(s[0]) {
      DropSpacesRuns(s);
      SplitCount(DropSpaces(s), []);
    } else {
      SplitCount(s[1..], current + [s[0]]);
    }
  }

  /** Every character is a `\s` character. */
  predicate AllRegexSpace(t: string)
  {
    forall k :: 0 <= k < |t| ==> IsRegexSpace(t[k])
  }

  /** The run `DropSpaces` removes from a text starting with `\s` is a
      non-empty run of `\s` characters, and it and the rest make the text. */
  lemma DroppedRun(s: string)
    requires s != [] && IsRegexSpace(s[0])
    ensures var d := DropSpaces(s); var sep := s[..|s| - |d|];
      sep != [] && AllRegexSpace(sep) && sep + d == s
  {
    var n := LeadingRegexSpaces(s);
    assert s[..n] + s[n..] == s;
  }

  /** The separators `split` cuts `s` at: each maximal run of `\s`, in order. */
  function SeparatorsFrom(s: string): seq<string>
    decreases |s|
  {
    if s == [] then []
    else if IsRegexSpace(s[0]) then [s[..|s| - |DropSpaces(s)|]] + SeparatorsFrom(DropSpaces(s))
    else SeparatorsFrom(s[1..])
  }

  /** The tokens interleaved with the separators: `t0 + s0 + t1 + ... + tn`. */
  function Join(tokens: seq<string>, seps: seq<string>): string
    requires |tokens| == |seps| + 1
    decreases |seps|
  {
    if seps == [] then tokens[0] else tokens[0] + seps[0] + Join(tokens[1..], seps[1..])
  }

  /** Splitting is undone by putting the separators back: the text is its
      tokens interleaved with non-empty runs of `\s`, one between each pair of
      neighbouring tokens. As no token holds a `\s` character, this fixes
      where each token starts and ends. */
  lemma {:induction false} SplitRoundTrip(s: string, current: string)
    ensures |SplitFrom(s, current)| == |SeparatorsFrom(s)| + 1
    ensures Join(SplitFrom(s, current), SeparatorsFrom(s)) == current + s
    ensures forall sep :: sep in SeparatorsFrom(s) ==> sep != [] && AllRegexSpace(sep)
    decreases |s|
  {
    if s == [] {
    } else if IsRegexSpace(s[0]) {
      var d := DropSpaces(s);
      var sep := s[..|s| - |d|];
      DroppedRun(s);
      SplitRoundTrip(d, []);
      var tokens := SplitFrom(d, []);
      var seps := SeparatorsFrom(d);
      assert SplitFrom(s, current) == [current] + tokens;
      assert SeparatorsFrom(s) == [sep] + seps;
      assert ([current] + tokens)[1..] == tokens && ([sep] + seps)[1..] == seps;
      assert Join([current] + tokens, [sep] + seps) == current + sep + Join(tokens, seps);
    } else {
      SplitRoundTrip(s[1..], current + [s[0]]);
      assert current + [s[0]] + s[1..] == current + s;
    }
  }

  /** Splitting loses, adds and reorders no character other than the
      separators: the tokens laid end to end are the text without its `\s`. */
  lemma {:induction false} SplitKeepsText(s: string, current: string)
    ensures Concat(SplitFrom(s, current)) == current + NonSpace(s)
    decreases |s|
  {
    if s == [] {
      assert Concat([current]) == current + Concat([]);
    } else if IsRegexSpace(s[0]) {
      SplitKeepsText(DropSpaces(s), []);
      DropSpacesNonSpace(s);
      var rest := SplitFrom(DropSpaces(s), []);
      assert ([current] + rest)[1..] == rest;
    } else {
      SplitKeepsText(s[1..], current + [s[0]]);
    }
  }

  /** No token contains a `\s` character. */
  lemma {:induction false} SplitTokensHaveNoSpace(s: string, current: string)
    requires NoRegexSpace(current)
    ensures forall t :: t in SplitFrom(s, current) ==> NoRegexSpace(t)
    decreases |s|
  {
    if s == [] {
    } else if IsRegexSpace(s[0]) {
      SplitTokensHaveNoSpace(DropSpaces(s), []);
    } else {
      SplitTokensHaveNoSpace(s[1..], current + [s[0]]);
    }
  }

  /** A text that neither starts nor ends with `\s` (and is not empty) splits
      into non-empty tokens only. */
  lemma {:induction false} SplitTokensNonEmpty(s: string, current: string)
    requires s == [] ==> current != []
    requires s != [] ==> !IsRegexSpace(s[|s| - 1])
    requires current == [] ==> s != [] && !IsRegexSpace(s[0])
    ensures forall t :: t in SplitFrom(s, current) ==> t != []
    decreases |s|
  {
    if s == [] {
    } else if IsRegexSpace(s[0]) {
      var rest := DropSpaces(s);
      assert rest != [] && rest[|rest| - 1] == s[|s| - 1];
      SplitTokensNonEmpty(rest, []);
    } else {
      SplitTokensNonEmpty(s[1..], current + [s[0]]);
    }
  }

  /** A null text has no tokens; any other text has one more token than its
      trimmed form has runs of whitespace, so a blank text counts as one. */
  lemma WordCountIsRunsPlusOne(text: Option<string>)
    ensures text.None? ==> WordCount(text) == 0
    ensures text.Some? ==> WordCount(text) == 1 + SpaceRuns(Trim(text.value))
  {
    if text.Some? {
      SplitCount(Trim(text.value), []);
    }
  }

  /** What the word count counts: the tokens of a text are space-free and
      together make up its trimmed form without the whitespace; for a
      non-blank text none of them is empty, unless the trimmed text starts or
      ends with NEXT LINE, which `trim()` keeps and `\s` matches. */
  lemma TokensAreWords(t: string)
    ensures Concat(Split(Trim(t))) == NonSpace(Trim(t))
    ensures forall w :: w in Split(Trim(t)) ==> NoRegexSpace(w)
    ensures Trim(t) != [] && Trim(t)[0] as int != NextLine && Trim(t)[|Trim(t)| - 1] as int != NextLine ==>
      forall w :: w in Split(Trim(t)) ==> w != []
  {
    var s := Trim(t);
    SplitKeepsText(s, []);
    SplitTokensHaveNoSpace(s, []);
    if s != [] && s[0] as int != NextLine && s[|s| - 1] as int != NextLine {
      SplitTokensNonEmpty(s, []);
    }
  }

  /** A blank-looking text that is only NEXT LINE survives `trim()` and splits
      into two empty tokens. */
  lemma NextLineSplitsIntoEmptyTokens()
    ensures Trim([NextLine as char]) == [NextLine as char]
    ensures Split(Trim([NextLine as char])) == [[], []]
  {
    var s := [NextLine as char];
    assert !IsWhitespace(s[0]);
    assert TrimStart(s) == s;
    assert TrimEnd(s) == s;
    assert IsRegexSpace(s[0]);
    assert s[1..] == [];
    assert DropSpaces(s) == [];
    assert SplitFrom([], []) == [[]];
    assert SplitFrom(s, []) == [[]] + SplitFrom([], []);
  }

  /** The alert fires exactly when the trimmed content has at least
      `maxWordCount` runs of whitespace, that is, more than 20 tokens. */
  lemma ContentAlertIff(text: Option<string>)
    ensures ContentAlert(text) <==> text.Some? && SpaceRuns(Trim(text.value)) >= MaxWordCount
  {
    if text.Some? {
      SplitCount(Trim(text.value), []);
    }
  }

  // ---------------------------------------------------------------------
  // Gallery permission and pick results

  /** `upload(grantResults)`: the permission request was answered and its
      first answer is a grant. */
  function Upload(grantResults: seq<int>): (r: bool)
    ensures r <==> |grantResults| > 0 && grantResults[0] == PermissionGranted
  {
    if grantResults == [] then false else grantResults[0] == PermissionGranted
  }

  /** `onRequestPermissionsResult`: whether the gallery pick is started. */
  function OpensGallery(requestCode: int, grantResults: seq<int>): (r: bool)
    ensures r ==> requestCode == PermissionRequestCode && grantResults != []
    ensures r <==> requestCode == PermissionRequestCode && Upload(grantResults)
  {
    requestCode == PermissionRequestCode && Upload(grantResults)
  }

  // ---------------------------------------------------------------------
  // Saving

  /** `photos/<uuid>.jpg`, the storage path of both the upload and the URL lookup. */
  function PhotoPath(uuid: string): (r: string)
    ensures |r| == |uuid| + 11
    ensures r[..7] == "photos/" && r[7..|r| - 4] == uuid && r[|r| - 4..] == ".jpg"
  {
    "photos/" + uuid + ".jpg"
  }

  /** Distinct names give distinct storage paths, so one upload never
      overwrites another's photo. */
  lemma PhotoPathInjective(a: string, b: string)
    requires PhotoPath(a) == PhotoPath(b)
    ensures a == b
  {
    assert a == PhotoPath(a)[7..|PhotoPath(a)| - 4];
  }

  /** The five keys every written book document has. */
  const FixedKeys: set<string> := {UsernameKey, BookNameKey, BookAuthorKey, BookContentKey, DateKey}

  /** The document `saveToDatabase(downloadUrl)` writes. */
  function Payload(owner: string, form: Form, now: Timestamp, downloadUrl: Option<string>): (m: Document)
    ensures FixedKeys <= m.Keys
    ensures m.Keys == FixedKeys + (if downloadUrl.Some? then {BookPhotoUrlKey} else {})
    ensures BookPhotoUrlKey in m <==> downloadUrl.Some?
    ensures downloadUrl.Some? ==> m[BookPhotoUrlKey] == Text(downloadUrl.value)
    ensures m[DateKey] == Time(now)
    ensures m[UsernameKey] == Text(owner) && m[BookNameKey] == Text(form.title)
    ensures m[BookAuthorKey] == Text(form.author) && m[BookContentKey] == Text(form.content)
  {
    var fixed := map[
      UsernameKey := Text(owner),
      BookNameKey := Text(form.title),
      BookAuthorKey := Text(form.author),
      BookContentKey := Text(form.content),
      DateKey := Time(now)];
    match downloadUrl
    case None => fixed
    case Some(url) => fixed[BookPhotoUrlKey := Text(url)]
  }

  /** The add request and what its completion leads to: the screen closes on
      success and shows the message on failure. */
  function WriteEffects(payload: Document, write: Result<()>): (r: seq<Effect>)
    ensures |r| == 2 && r[0] == AddDocument(CollectionName, payload)
    ensures r[1] == Finish <==> write.Ok?
    ensures write.Err? ==> r[1] == Toast(write.message)
  {
    [AddDocument(CollectionName, payload)] + (if write.Ok? then [Finish] else [Toast(write.message)])
  }

  /** Everything `save` does, given the chosen photo, the fresh name and the
      completions the backend delivers for the upload, the URL lookup and the write. */
  function SaveEffects(
    chosenPhoto: Option<Uri>, uuid: string, upload: Result<()>, downloadUrl: Result<string>,
    write: Result<()>, owner: string, form: Form, now: Timestamp): (r: seq<Effect>)
    ensures r != []
    ensures r[|r| - 1] == Finish <==>
      write.Ok? && (chosenPhoto.Some? ==> upload.Ok? && downloadUrl.Ok?)
    ensures forall k :: 0 <= k < |r| - 1 ==> r[k] != Finish
  {
    match chosenPhoto
    case None => WriteEffects(Payload(owner, form, now, None), write)
    case Some(photo) =>
      [PutFile(PhotoPath(uuid), photo)] +
      if upload.Err? then [Toast(upload.message)]
      else
        [GetDownloadUrl(PhotoPath(uuid))] +
        if downloadUrl.Err? then [Toast(downloadUrl.message)]
        else WriteEffects(Payload(owner, form, now, Some(downloadUrl.value)), write)
  }

  predicate Writes(effects: seq<Effect>)
  {
    exists k :: 0 <= k < |effects| && effects[k].AddDocument?
  }

  /** A book written and read back by the listing has the owner, the three
      texts and the photo URL it was written with. */
  lemma WrittenBookReadsBack(owner: string, form: Form, now: Timestamp, downloadUrl: Option<string>)
    ensures Readable(Payload(owner, form, now, downloadUrl))
    ensures BookOf(Payload(owner, form, now, downloadUrl))
      == Book(Some(owner), Some(form.title), Some(form.author), Some(form.content), downloadUrl)
  {
  }

  /** Without a chosen photo the record is written at once, with no photo URL,
      and nothing is uploaded. */
  lemma SaveWithoutPhoto(uuid: string, upload: Result<()>, downloadUrl: Result<string>,
                         write: Result<()>, owner: string, form: Form, now: Timestamp)
    ensures var effects := SaveEffects(None, uuid, upload, downloadUrl, write, owner, form, now);
      && effects[0] == AddDocument(CollectionName, Payload(owner, form, now, None))
      && BookPhotoUrlKey !in Payload(owner, form, now, None)
      && forall k :: 0 <= k < |effects| ==> !effects[k].PutFile? && !effects[k].GetDownloadUrl?
  {
  }

  /** With a chosen photo, a record is written only after the upload succeeded
      and the URL was resolved, from the same path; the record carries that
      URL. Otherwise the failure's message is shown and nothing is written. */
  lemma SaveWithPhoto(photo: Uri, uuid: string, upload: Result<()>, downloadUrl: Result<string>,
                      write: Result<()>, owner: string, form: Form, now: Timestamp)
    ensures var effects := SaveEffects(Some(photo), uuid, upload, downloadUrl, write, owner, form, now);
      && effects[0] == PutFile(PhotoPath(uuid), photo)
      && (Writes(effects) <==> upload.Ok? && downloadUrl.Ok?)
      && (upload.Err? ==> effects == [PutFile(PhotoPath(uuid), photo), Toast(upload.message)])
      && (upload.Ok? && downloadUrl.Err? ==>
            effects == [PutFile(PhotoPath(uuid), photo), GetDownloadUrl(PhotoPath(uuid)), Toast(downloadUrl.message)])
      && (upload.Ok? && downloadUrl.Ok? ==>
            && effects[1] == GetDownloadUrl(PhotoPath(uuid))
            && effects[2] == AddDocument(CollectionName, Payload(owner, form, now, Some(downloadUrl.value)))
            && effects[2].payload[BookPhotoUrlKey] == Text(downloadUrl.value))
  {
    var effects := SaveEffects(Some(photo), uuid, upload, downloadUrl, write, owner, form, now);
    if upload.Ok? && downloadUrl.Ok? {
      assert effects[2].AddDocument?;
    }
  }

  /** The word-count alert is advisory: content longer than the limit is
      written all the same, at once without a photo, and after a successful
      upload and URL lookup with one. */
  lemma LongContentIsWritten(chosenPhoto: Option<Uri>, uuid: string, upload: Result<()>,
                             downloadUrl: Result<string>, write: Result<()>, owner: string, form: Form, now: Timestamp)
    requires ContentAlert(Some(form.content))
    ensures chosenPhoto.None? ==>
      var effects := SaveEffects(chosenPhoto, uuid, upload, downloadUrl, write, owner, form, now);
      effects[0].AddDocument? && effects[0].payload[BookContentKey] == Text(form.content)
    ensures chosenPhoto.Some? && upload.Ok? && downloadUrl.Ok? ==>
      var effects := SaveEffects(chosenPhoto, uuid, upload, downloadUrl, write, owner, form, now);
      |effects| > 2 && effects[2].AddDocument? && effects[2].payload[BookContentKey] == Text(form.content)
  {
    var effects := SaveEffects(chosenPhoto, uuid, upload, downloadUrl, write, owner, form, now);
    if chosenPhoto.Some? && upload.Ok? && downloadUrl.Ok? {
      assert effects[2] == AddDocument(CollectionName, Payload(owner, form, now, Some(downloadUrl.value)));
    }
  }

  /** The user who wrote a book may open its delete screen from the listing,
      with the texts and photo URL they entered; a user whose display name
      reads differently may not. */
  lemma OwnerCanOpenOwnBook(displayName: Option<string>, other: Option<string>,
                            form: Form, now: Timestamp, downloadUrl: Option<string>)
    ensures var book := BookOf(Payload(OwnerName(displayName), form, now, downloadUrl));
      && UserActivity.Tap(book, displayName)
         == UserActivity.OpenDelete(UserActivity.Extras(Some(form.title), Some(form.author), Some(form.content), downloadUrl))
      && (OwnerName(other) != OwnerName(displayName) ==> UserActivity.Tap(book, other).Rejected?)
  {
  }

  /** The creation screen's state: the photo picked from the gallery. */
  class AddBookScreen {
    var chosenPhoto: Option<Uri>

    constructor ()
      ensures chosenPhoto == None
    {
      chosenPhoto := None;
    }

    /** `onActivityResult`: only a successful answer to the pick request
        replaces the chosen photo, with whatever the answer carries (possibly
        nothing). */
    method OnActivityResult(requestCode: int, resultCode: int, data: Option<PickResult>)
      modifies this
      ensures if requestCode == PickImageRequestCode && resultCode == ResultOk && data.Some?
              then chosenPhoto == data.value.data
              else chosenPhoto == old(chosenPhoto)
    {
      if requestCode == PickImageRequestCode && resultCode == ResultOk && data.Some? {
        chosenPhoto := data.value.data;
      }
    }

    /** `saveToDatabase(downloadUrl)`: builds the document key by key and adds it. */
    method SaveToDatabase(downloadUrl: Option<string>, displayName: Option<string>, form: Form,
                          now: Timestamp, write: Result<()>) returns (effects: seq<Effect>)
      ensures effects == WriteEffects(Payload(OwnerName(displayName), form, now, downloadUrl), write)
    {
      var bookMap: Document := map[];
      bookMap := bookMap[UsernameKey := Text(OwnerName(displayName))];
      bookMap := bookMap[BookNameKey := Text(form.title)];
      bookMap := bookMap[BookAuthorKey := Text(form.author)];
      bookMap := bookMap[BookContentKey := Text(form.content)];
      bookMap := bookMap[DateKey := Time(now)];
      if downloadUrl.Some? {
        bookMap := bookMap[BookPhotoUrlKey := Text(downloadUrl.value)];
      }
      effects := [AddDocument(CollectionName, bookMap)];
      if write.Ok? {
        effects := effects + [Finish];
      } else {
        effects := effects + [Toast(write.message)];
      }
    }

    /** `save`: with a chosen photo, upload it, then resolve its URL, then
        write; without one, write at once. */
    method Save(uuid: string, upload: Result<()>, downloadUrl: Result<string>, write: Result<()>,
                displayName: Option<string>, form: Form, now: Timestamp) returns (effects: seq<Effect>)
      ensures effects == SaveEffects(chosenPhoto, uuid, upload, downloadUrl, write, OwnerName(displayName), form, now)
    {
      var photoRef := PhotoPath(uuid);
      if chosenPhoto.Some? {
        effects := [PutFile(photoRef, chosenPhoto.value)];
        if upload.Ok? {
          var downloadPhotoRef := PhotoPath(uuid);
          effects := effects + [GetDownloadUrl(downloadPhotoRef)];
          if downloadUrl.Ok? {
            var written := SaveToDatabase(Some(downloadUrl.value), displayName, form, now, write);
            effects := effects + written;
          } else {
            effects := effects + [Toast(downloadUrl.message)];
          }
        } else {
          effects := effects + [Toast(upload.message)];
        }
      } else {
        effects := SaveToDatabase(None, displayName, form, now, write);
      }
    }
  }
}
