# mentor-site core, modelled in Dafny

This project models three parts of the mentor-site repository and proves
properties about them. The repository is a personal tutoring and blog site
built on Flask.

- **The checkout-session store** (`db.py`). It is a SQLite table of payment
  checkout sessions, keyed by session id. Each row holds the customer's
  e-mail, the payment status, the time the one-time scheduling grant was
  claimed, and the time of the last write.
  - `SessionStore.CheckoutStore` is a class whose `sessions` map is that
    table.
  - Its methods `Upsert`, `Get` and `Claim` are the three statements. Each is
    one atomic step tied to a pure function: `UpsertRow`, `View` or
    `ClaimRow`.
  - `Run` models any interleaving of statements from concurrent requests. It
    lets the one-shot claim be proved over whole traces.
- **The blog text utilities** (`blog/utils.py`), in `BlogUtils`:
  - the metadata-line pattern, and the leading-metadata scanner as a loop
    with a `skipping` flag;
  - media-path normalisation;
  - slugs derived from file names;
  - `find_post`;
  - the content-directory priority chain, with the environment as a map;
  - the word count, reading time and excerpt of `parse_post`.
- **The authoring helpers** (`authoring_app/views.py`):
  - in `Authoring`: `slugify`, the field handling and validation of the edit
    form, and the rename rule of `save_post` on a directory of posts keyed by
    slug (`Authoring.ContentDirectory`);
  - in `Dashboard`: the date normalisation and ordering of `load_all_posts`.

`Text` holds the Python string operations these rely on, restricted to
ASCII:

- `str.isspace`, `lower` and `isalnum`;
- `strip`, `lstrip` and `rstrip`;
- `split()`, `splitlines()` and `join`;
- the order Python uses to compare strings.

`Options` holds `Optional`.

Ordinary code paths have a few consequences. The lemmas named in each item
make them explicit:

- A new post submitted with a non-empty `original_slug` form field is saved
  as a rename. When the field is a plain slug, that slug's file is removed.
  `RenameMovesPost` covers this, because it does not require an existing
  post.
- The field is never slugified, and `save_post` reads it as a path. A value
  such as `./bar` removes `bar.md`, and `../x` removes a file outside the
  content directory (`OriginalSlugReadAsPath`, `OriginalSlugLeavesDirectory`, and "## Findings").
- An edit whose form `original_slug` equals the new slug can overwrite that
  file, even when it belongs to another post. `SavedNeverOverwritesAnother`
  states that only the file named by the recorded previous slug (the form's
  `original_slug`, or else the route slug) can be overwritten.
- An undated post sorts above a post dated 0001-01-01. Its key
  `0001-01-01T00:00:00` extends that date's string (`UndatedAboveMinDate`).
- An empty `excerpt` metadata string falls back to the first 50 words but
  never gets the ellipsis (`EmptyExcerptMetadataHasNoEllipsis`).

## Model

| member | source | states |
|---|---|---|
| SessionStore.UpsertRow | db.py:67-76 | After an upsert the id is present, with the given e-mail and status, even when these are None. `updated_at` is the clock. A new id adds exactly one row with no claim. An existing row keeps its claim and its row count. Every other row is unchanged. |
| SessionStore.View | db.py:92-103 | The row `get_checkout_session` returns: None exactly when the id is absent, otherwise the id with the row's e-mail, status and `updated_at`, and no claim column. `ViewAfterUpsert` and `ViewAfterClaim` state what it reads after each write. |
| SessionStore.ViewAfterUpsert | db.py:67-103 | After an upsert, a read of that id gives exactly the written e-mail, status and timestamp, whatever the row held before. A read of any other id is unchanged. |
| SessionStore.ViewAfterClaim | db.py:92-131 | A successful claim changes a read of that id only in `updated_at`, which becomes the clock. The claim itself is not visible through `get`. A failed claim leaves the read unchanged, and a claim never changes a read of another id. |
| SessionStore.IsClaimed | db.py:125 | The negation of the claim guard `schedule_claimed_at IS NULL OR schedule_claimed_at = ''`. `ClaimRow`'s contract, `SecondClaimFails` and `AtMostOneClaimWins` state its role. |
| SessionStore.ClaimRow | db.py:119-131 | The claim succeeds exactly when the row exists and its claim is NULL or ''. On success it sets the claim and `updated_at` to the clock. On failure the table is unchanged, so an unknown id creates no row. No id is added or removed, other rows are unchanged, and afterwards an existing row is claimed. |
| SessionStore.CheckoutStore.Upsert | db.py:56-79 | The table becomes `UpsertRow` of the old table. |
| SessionStore.CheckoutStore.Get | db.py:82-103 | The returned row is `View` of the table for that id. |
| SessionStore.CheckoutStore.Claim | db.py:106-131 | The table and the returned `rowcount == 1` are those of `ClaimRow` on the old table. |
| SessionStore.UpsertIdempotent | db.py:67-76 | Repeating an upsert with the same arguments gives the same table as doing it once. |
| SessionStore.UpsertLastWriteWins | db.py:71-74 | Two upserts on one id equal the second one alone. |
| SessionStore.SecondClaimFails | db.py:111-125 | A claim right after a claim on the same id returns false and changes nothing. |
| SessionStore.UpsertAfterClaimKeepsClaim | db.py:71-74 | An upsert after a claim neither clears nor rewrites the claim timestamp. |
| SessionStore.RunKeepsRowsAndClaims | db.py:67-76 | In any sequence of statements, no row disappears, and a claimed row stays claimed with the same timestamp. |
| SessionStore.AtMostOneClaimWins | db.py:111-131 | In any sequence of statements, at most one claim on an id returns true, and none does once the id is claimed. |
| SessionStore.ExactlyOneClaimWins | db.py:119-131 | When the row exists, the number of claims that return true is exactly 1 if it was unclaimed and the sequence claims it, and 0 otherwise. |
| SessionStore.BrowserAndWebhookConverge | db.py:67-76 | Two upserts of a new id leave one new row holding the later e-mail and status, and no claim. |
| SessionStore.Step | db.py:56-131 | One statement of any request on the table: an upsert by `UpsertRow`, a claim by `ClaimRow`, with the statement's answer. Its properties are in `OtherStepKeepsClaimState` and the trace lemmas. |
| SessionStore.Run | db.py:56-131 | The table after a sequence of statements. `RunKeepsRowsAndClaims` states that rows and claims survive every sequence. |
| SessionStore.Wins | db.py:119-131 | The number of successful claims on an id in a sequence. It is bounded by `AtMostOneClaimWins` and `ExactlyOneClaimWins`. |
| BlogUtils.KeyLength | blog/utils.py:57 | The length of the leading `[A-Za-z0-9_]` run. |
| BlogUtils.IsMetadataLine | blog/utils.py:57 | The metadata-line test. `MetadataLineMatchesPattern` states that it agrees with the regular expression. |
| BlogUtils.MetadataLineMatchesPattern | blog/utils.py:57 | The executable metadata-line test holds exactly when the line has the form key, ':', optional whitespace, then at least one character, as `^[A-Za-z0-9_]+:\s*.+$` requires. |
| BlogUtils.FirstNot | blog/utils.py:66-71 | The index of the first line that the skip test rejects: every earlier line passes the test, and the line at the index fails it. |
| BlogUtils.Skippable | blog/utils.py:66-71 | The test applied to each leading line: the line is blank once stripped, or it matches the metadata pattern once stripped. `CleanedBodyStartsAtFirstKept` states what it removes. |
| BlogUtils.DropLeading | blog/utils.py:63-72 | The loop with the `skipping` flag returns exactly the lines from the first kept one onwards. |
| BlogUtils.StripLeadingMetadataLines | blog/utils.py:60-74 | The result is `CleanedBody` of the content: its lines from the first line that is neither blank nor metadata, joined by "\n", then lstripped. |
| BlogUtils.CleanedBody | blog/utils.py:60-74 | The body `strip_leading_metadata_lines` returns. `CleanedBodyStartsAtFirstKept` and `UnchangedWhenFirstLineKept` state its value. |
| BlogUtils.JoinFrom | blog/utils.py:74 | Joining from line k gives line k followed by the rest of the join. |
| BlogUtils.CleanedBodyStartsAtFirstKept | blog/utils.py:66-74 | The cleaned body is empty when every line is skipped. Otherwise it is the first kept line, lstripped, followed by every later line unchanged, even lines that look like metadata. |
| BlogUtils.UnchangedWhenFirstLineKept | blog/utils.py:60-74 | Content is returned unchanged when its first line is kept, it uses only "\n" as a line break, it does not end with one, and it does not start with whitespace. |
| BlogUtils.DropStatic | blog/utils.py:171-173 | For text starting with `static/` and longer than it, the result is what follows the prefix. A result that would be empty ("" or exactly `static/`) becomes None. Any other non-empty text is returned unchanged. The result is always a suffix of the input. |
| BlogUtils.LocalReference | blog/utils.py:170-173 | A returned path is non-empty, no longer than the input, and ends with the input's last character. The result is None when nothing remains, as for "/" or `static/`. |
| BlogUtils.LocalReferenceShape | blog/utils.py:170-173 | The result drops a run of leading '/' and then applies `DropStatic`. |
| BlogUtils.NormalizeMediaPath | blog/utils.py:161-173 | None or blank input gives (None, False). The flag is true exactly for stripped values starting with `http://` or `https://`, which are returned stripped. Any other value becomes the local reference of its stripped form. A returned path is non-empty and does not end in whitespace. |
| BlogUtils.NormalizeStrippedLocal | blog/utils.py:165-173 | An already-stripped local value normalises to its local reference, with flag False. |
| BlogUtils.LStripCharOfOtherStart | blog/utils.py:170 | `lstrip('/')` leaves unchanged any text that does not start with '/'. |
| BlogUtils.StaticRootRoundTrip | blog/utils.py:170-173 | `"/static/" + p` normalises back to `p`, for any non-empty `p` that does not end in whitespace. Only one leading `static/` is removed. |
| BlogUtils.ExternalUrlIdempotent | blog/utils.py:165-169 | A normalised external URL normalises to itself with flag True. |
| BlogUtils.IsExternalUrl | blog/utils.py:168 | `startswith(('http://', 'https://'))`. `NormalizeMediaPath`'s contract states that exactly these values are flagged external. |
| BlogUtils.LastDot | blog/utils.py:54 | The index of the last '.' in a name, or -1 when there is none. |
| BlogUtils.Stem | blog/utils.py:54 | `Path.stem` is a prefix of the name. It differs from the name exactly when the last '.' is neither the first nor the last character. In that case the stem is cut at that dot, and no '.' follows it. |
| BlogUtils.SlugFromFilename | blog/utils.py:52-54 | The result has the stem's length. Each upper-case letter becomes lower-case, each ' ' and '_' becomes '-', and every other character is kept. The result has no upper-case letter, space or '_'. |
| BlogUtils.StemOfMarkdownFile | blog/utils.py:54 | The stem of `base + ".md"` is `base`, for any non-empty base. |
| BlogUtils.SlugFromFilenameRoundTrip | blog/utils.py:52-54 | The slug of `slug + ".md"` is that slug again. |
| BlogUtils.FindPost | blog/utils.py:148-158 | Gives None exactly when no post has the slug. Otherwise it gives the first post in order whose slug matches. |
| BlogUtils.FirstSet | blog/utils.py:19-27 | The value of the first variable set to a non-empty string, or None when there is none. |
| BlogUtils.IsSet | blog/utils.py:24-25 | `os.getenv(name)` is truthy: the variable is present and non-empty. `FirstSet` and `GetContentDir` state the lookup in terms of it. |
| BlogUtils.Truthy | blog/utils.py:38 | `if override:`. A `Path` is always truthy, and a string is truthy when it is non-empty. `GetContentDir` states that a truthy override wins. |
| BlogUtils.EnvContentDir | blog/utils.py:17-27 | The early-return loop over `BLOG_CONTENT_DIR`, `AUTHORING_CONTENT_DIR` and `CONTENT_DIR` returns `FirstSet`. |
| BlogUtils.GetContentDir | blog/utils.py:30-45 | A truthy override wins. Then `BLOG_CONTENT_DIR`, `AUTHORING_CONTENT_DIR` and `CONTENT_DIR` are tried in turn, skipping empty values. Otherwise the result is the default directory, whose path is `content/posts`. |
| BlogUtils.RoundPer200 | blog/utils.py:100 | `round(n / 200)`: the result is within 100 words of 200 times itself, and an exact half goes to the even integer. |
| BlogUtils.ReadingTime | blog/utils.py:100 | At least 1 minute. Exactly 1 up to 100 words. Above 100 words it is `RoundPer200` of the count: the nearest whole number of 200-word minutes, with an exact half going to the even number. |
| BlogUtils.ReadingTimeMonotone | blog/utils.py:100 | More words never give a shorter reading time. |
| BlogUtils.Stats | blog/utils.py:98-103 | The word count is the number of `split()` words. The reading time is `ReadingTime` of that count, so at least 1. The excerpt is `Excerpt` of the words, so a non-empty `excerpt` metadata is used as it is, and `ExcerptOfLongText`/`ExcerptOfShortText` apply. |
| BlogUtils.Excerpt | blog/utils.py:101-103 | The excerpt expression of `parse_post`. It is stated by `ExcerptOfLongText`, `ExcerptOfShortText` and `EmptyExcerptMetadataHasNoEllipsis`. |
| BlogUtils.ExcerptOfLongText | blog/utils.py:101-103 | Without excerpt metadata, more than 50 words give an excerpt of text that splits into exactly the first 50 words, followed by '…'. |
| BlogUtils.ExcerptOfShortText | blog/utils.py:101-103 | Without excerpt metadata, at most 50 words give an excerpt that splits back into all of them, with no ellipsis. |
| BlogUtils.EmptyExcerptMetadataHasNoEllipsis | blog/utils.py:101-103 | An empty excerpt string gives the same words as a missing one, but without the '…'. |
| Text.LowerChar | authoring_app/views.py:60 | ASCII `lower`: an upper-case letter moves up by 32 code points, from 'A'..'Z' to 'a'..'z'. Everything else is kept, and the result is never upper-case. |
| Text.Lower | authoring_app/views.py:60 | `str.lower()` on ASCII text: the same length, with `LowerChar` applied at each position. |
| Text.IsSpace | blog/utils.py:67 | `str.isspace` on one ASCII character: ' ', '\t' through '\r', and '\x1c' through '\x1f'. `LStrip`, `RStrip`, `Strip` and `SplitWords` are stated in terms of it. |
| Text.IsAlnum | authoring_app/views.py:62-63 | `str.isalnum` on one ASCII character: a letter or a digit. `Clean` and `SlugifyEmptyIff` are stated in terms of it. |
| Text.IsLineBreak | blog/utils.py:62 | The ASCII characters `splitlines()` breaks at: '\n', '\r', '\v', '\f' and '\x1c' through '\x1e'. `SplitLinesHaveNoBreaks` is stated in terms of it. |
| Text.StartsWith | blog/utils.py:168-171 | `str.startswith` for one prefix. `IsExternalUrl`, `DropStatic` and `Stem` are stated in terms of it. |
| Text.LStrip | blog/utils.py:74 | `lstrip()` returns a suffix whose dropped prefix is all whitespace, and which does not start with whitespace. |
| Text.RStrip | blog/utils.py:67 | `rstrip()` returns a prefix whose dropped suffix is all whitespace, and which does not end with whitespace. |
| Text.Strip | blog/utils.py:165 | `strip()` cuts a blank prefix and a blank suffix off the text, and what remains neither starts nor ends with whitespace. So exactly the leading and trailing whitespace is cut. |
| Text.StripEmptyIff | blog/utils.py:67 | `strip()` is empty exactly when the text is all whitespace. |
| Text.StripOfTrimmed | blog/utils.py:165 | Text that starts and ends with non-whitespace is its own `strip()`. |
| Text.LStripChar | blog/utils.py:170 | `lstrip('/')` returns a suffix whose dropped characters are all '/' and which does not start with '/'. |
| Text.SplitWords | blog/utils.py:98 | `split()` gives a list of non-empty words without whitespace. |
| Text.Join | blog/utils.py:74 | `sep.join(parts)`. `SplitJoinWords` and `JoinSplitLines` state its round trips with `split()` and `splitlines()`. |
| Text.SplitJoinWords | blog/utils.py:101 | Joining words with ' ' and splitting again gives back the same words. |
| Text.SplitWordsEmptyIff | authoring_app/views.py:66 | `split()` is empty exactly when the text is all whitespace. |
| Text.SplitLinesHaveNoBreaks | blog/utils.py:62 | No line from `splitlines()` contains a line-break character. |
| Text.SplitLines | blog/utils.py:62 | `str.splitlines()` on ASCII text. It has the properties `SplitLinesHaveNoBreaks` and `JoinSplitLines`. |
| Text.JoinSplitLines | blog/utils.py:62-74 | Text whose only line breaks are "\n", and which does not end in one, is rebuilt by joining its `splitlines()` with "\n". |
| Text.StripKeepsSomeChar | authoring_app/views.py:60 | `strip()` loses no character that is not whitespace. |
| Text.LessTotal | authoring_app/views.py:52-55 | String order is total. |
| Text.LessTransitive | authoring_app/views.py:52-55 | String order is transitive. |
| Text.LessAsymmetric | authoring_app/views.py:52-55 | String order is asymmetric. |
| Text.LessConcat | authoring_app/views.py:52-55 | Two concatenations whose first parts have the same length compare by the first parts, then by the second parts. |
| Text.Less | authoring_app/views.py:52-55 | Python's `<` on strings: the first differing character decides, and a proper prefix is smaller. `LessIrreflexive`, `LessTotal`, `LessAsymmetric`, `LessTransitive` and `LessConcat` state that it is a strict total order that compares concatenations part by part. |
| Authoring.Clean | authoring_app/views.py:61-65 | Every character keeps its place. Alphanumerics, '-' and ' ' are kept, and every other character becomes ' '. So the result holds only alphanumerics, '-' and ' '. |
| Authoring.CleanFixedPoint | authoring_app/views.py:61-65 | Cleaning leaves a text unchanged exactly when the text holds only alphanumerics, '-' and ' '. Cleaning twice equals cleaning once. |
| Authoring.Slugify | authoring_app/views.py:59-67 | The result contains only `[a-z0-9-]`, so in particular no whitespace. |
| Authoring.SlugifyOfSlug | authoring_app/views.py:59-67 | A string of slug characters is its own slug. |
| Authoring.SlugifyIdempotent | authoring_app/views.py:111-112 | Slugifying twice gives the same as slugifying once. |
| Authoring.SlugifyEmptyIff | authoring_app/views.py:59-67 | The slug is empty exactly when the value has no alphanumeric character and no '-'. |
| Authoring.SlugifyOfWords | authoring_app/views.py:61-66 | Slug words joined by single spaces slugify to the same words joined by '-'. |
| Authoring.HeroImage | authoring_app/views.py:115-117 | The hero image is empty exactly when the value is blank or, once stripped, reads `none` or `null` in any case. Otherwise it is the stripped value. |
| Authoring.SlugField | authoring_app/views.py:111-112 | The slug is a valid slug. It is `slugify` of the form's slug when that is non-empty, and otherwise `slugify` of the title. |
| Authoring.DateField | authoring_app/views.py:120-121 | A blank date gives today. Any other date gives its non-empty stripped value. |
| Authoring.ParseForm | authoring_app/views.py:109-121 | Reads the submitted form into fields, through `SlugField`, `HeroImage` and `DateField`. The text fields are stripped, and `featured` is true for the value `on`. `HeroImageNoneOrNull` states the hero-image case end to end. |
| Authoring.ValidationErrorsReported | authoring_app/views.py:123-138 | Each of "Title is required.", "Slug is required." and "Content is required." is reported exactly when the stripped title, the slug or the stripped content is empty. The duplicate error is reported exactly when the post is new or renamed and a file for the slug exists, and it names the submitted slug. |
| Authoring.OriginalSlug | authoring_app/views.py:131 | `form.get('original_slug') or slug`. `OriginalOfExisting` states that it is non-empty when the route names an existing post. |
| Authoring.Renamed | authoring_app/views.py:87 | `original_slug and slug != original_slug`, the rename test of `save_post`, which `edit_post` repeats at its line 136. `SaveResult` and `RenameMovesPost` state what a rename does. |
| Authoring.IsExisting | authoring_app/views.py:106 | `load_post(slug) if slug`: the route names a slug whose file exists, so `not post` at line 135 is its negation. `DecideNeverOverwritesAnother` and `OriginalOfExisting` use it. |
| Authoring.IsDuplicate | authoring_app/views.py:133-138 | The duplicate test: a new or renamed post whose target file exists. `ValidationErrorsReported` states that it is reported exactly then. |
| Authoring.ValidationErrors | authoring_app/views.py:123-138 | The errors in order. `ValidationErrorsReported` and `ValidationErrorsInOrder` state their content and their order. |
| Authoring.ValidationErrorsInOrder | authoring_app/views.py:123-138 | The errors come in the order of the checks: title, slug, content, duplicate. |
| Authoring.Message | authoring_app/views.py:125-138 | The flashed text of each error, exactly as the source writes it. `MessageOfFixed` and `FlashedMessages` relate it to the errors. |
| Authoring.Messages | authoring_app/views.py:140-142 | The flashed messages of an error list, one per error, in the list's order. |
| Authoring.MessageOfFixed | authoring_app/views.py:125-138 | Each of the three fixed messages is the text of exactly one error, and the duplicate message is never one of them. |
| Authoring.MessageFlashedIff | authoring_app/views.py:138-142 | If every duplicate error in a list names the same slug, then an error's message is flashed exactly when the error is in the list. |
| Authoring.FlashedMessages | authoring_app/views.py:123-142 | "Title is required.", "Slug is required." and "Content is required." are each flashed exactly when the title, slug or content is empty. `A post with slug "<slug>" already exists.` is flashed exactly when the duplicate check fails. |
| Authoring.Validate | authoring_app/views.py:123-138 | Appending the errors one by one gives `ValidationErrors`. |
| Authoring.MetadataOf | authoring_app/views.py:150-158 | The front matter written for a valid submission carries every field: the submitted fields read back from it together with the content (`FieldsOf`). An empty hero image is stored as None, which reads back as "". |
| Authoring.FieldsOf | authoring_app/views.py:150-158 | Reads a stored post back as form fields. A hero image of None reads as "". It is the inverse named in `MetadataOf`'s contract. |
| Authoring.HeroImageNoneOrNull | authoring_app/views.py:115-117 | A hero image that reads `none` or `null` in any case is stored as None. |
| Authoring.SaveResult | authoring_app/views.py:84-94 | The target slug holds the new post. A renamed post's old slug is gone. The files are the old ones, less the old slug when renamed, plus the target. Every other file is unchanged. The old slug is removed only when it is exactly a key of the directory. `SaveResultAsWrittenOfName` states that this is the program's effect whenever `original_slug` has no '/'. |
| Authoring.SegmentEnd | authoring_app/views.py:88 | The first segment of a path ends at the first '/', or at the end of the path when it has none. |
| Authoring.PathParts | authoring_app/views.py:88 | The parts pathlib reads from a relative path: none is empty, none is ".", and none contains '/'. `PathPartsOfName` and `UnlinkedKeyOfParent` state its value. |
| Authoring.PathPartsOfName | authoring_app/views.py:88 | A name without '/' other than "" and "." is a path of one part. |
| Authoring.UnlinkedKey | authoring_app/views.py:88-90 | The post whose file `content_dir / f'{original_slug}.md'` is. When there is one, the path is relative and is the single part `<key>.md`. |
| Authoring.UnlinkedKeyOfName | authoring_app/views.py:88-90 | A value without '/' names its own file. |
| Authoring.PathPartsOfCurrentDir | authoring_app/views.py:88 | `./bar.md` has the single part `bar.md`. |
| Authoring.UnlinkedKeyOfCurrentDir | authoring_app/views.py:88-90 | `./bar` names the file of the post `bar`. |
| Authoring.UnlinkedKeyOfParent | authoring_app/views.py:88-90 | `../x` has the parts `..` and `x.md`, and names no post of the directory. |
| Authoring.SaveResultAsWritten | authoring_app/views.py:84-94 | `save_post` with `original_slug` read as a path. The target slug holds the new post. A file outside the directory's posts is unlinked only on a rename whose path names no post of the directory. |
| Authoring.SaveResultAsWrittenOfName | authoring_app/views.py:84-94 | For an `original_slug` without '/', the program's effect is exactly `SaveResult`, and it unlinks nothing outside the directory's posts. |
| Authoring.OriginalSlugReadAsPath | authoring_app/views.py:87-90 | With the post `bar` in the directory, saving `baz` with `original_slug` `./bar` removes `bar`, which `SaveResult` keeps. |
| Authoring.OriginalSlugLeavesDirectory | authoring_app/views.py:87-90 | With the post `bar` in the directory, saving `baz` with `original_slug` `../x` keeps `bar` and unlinks `../x.md`, outside the content directory. |
| Authoring.Decide | authoring_app/views.py:123-165 | A submission of given fields: rejected with the validation errors, or the post saved by `SaveResult`. `DecideOutcome`, `DecideNeverOverwritesAnother`, `CreateOnlyAdds` and `RenameMovesPost` state its effect. |
| Authoring.Submission | authoring_app/views.py:105-165 | `Decide` applied to the parsed form and the recorded previous slug. `SavedNeverOverwritesAnother` states the overwrite rule at the form level. |
| Authoring.ContentDirectory.SavePost | authoring_app/views.py:77-94 | The directory becomes `SaveResult` of the old one, and the returned name is `<slug>.md`. |
| Authoring.ContentDirectory.Submit | authoring_app/views.py:105-165 | The outcome and the new directory are those of `Submission` on the old directory. |
| Authoring.DecideOutcome | authoring_app/views.py:140-165 | A rejected submission leaves the directory unchanged and reports at least one error. A saved one has a non-empty title, content and slug, and its file holds the submitted post. |
| Authoring.DecideNeverOverwritesAnother | authoring_app/views.py:131-138 | A saved submission writes to an existing slug only when editing an existing post whose recorded previous slug is that slug. |
| Authoring.SavedNeverOverwritesAnother | authoring_app/views.py:105-138 | A save can overwrite an existing file only when the route names an existing post and the target slug is the recorded previous slug. That slug is the form's `original_slug`, or else the route slug. Because it comes from the form, it can name a post other than the one being edited. |
| Authoring.CreateOnlyAdds | authoring_app/views.py:131-138 | Creating a post with no previous slug adds one new file and keeps every existing post. |
| Authoring.RenameMovesPost | authoring_app/views.py:87-94 | Over the slug-keyed directory, saving under a new slug removes the old slug's entry. The new slug did not exist and now holds the post. Every other file is unchanged. |
| Dashboard.Digits | authoring_app/views.py:40 | A string of decimal digits of the given width. `DigitsValue` reads it back as the number. |
| Dashboard.DigitsValue | authoring_app/views.py:40 | A number below 10^width, written as a zero-padded numeral, reads back as the same number. |
| Dashboard.DigitsOrder | authoring_app/views.py:40 | Zero-padded numerals of the same width compare, and are equal, exactly as the numbers do. |
| Dashboard.IsoDate | authoring_app/views.py:40 | `date.isoformat()` is 10 characters, with '-' at positions 4 and 7. |
| Dashboard.IsoDateOrder | authoring_app/views.py:40-55 | One ISO date string is less than another exactly when its date is earlier. |
| Dashboard.DateString | authoring_app/views.py:38-44 | A datetime becomes its 10-character ISO date, a missing or null date becomes "", and any other value becomes its `str()`. `DatedEntriesOrder` states that the datetime case sorts chronologically. |
| Dashboard.EntryOf | authoring_app/views.py:36-49 | A missing or empty slug falls back to the stem, so the slug of a file with a non-empty stem is never empty. A missing title falls back to the stem, and a null title stays None. The date is `DateString`. The file and its modification time are carried. |
| Dashboard.EntrySortKey | authoring_app/views.py:38-55 | An entry's sort key is never empty. It is the ISO date for a datetime, the text of any other non-empty value, and `datetime.min.isoformat()` for a missing, null or empty date. |
| Dashboard.DatedEntriesOrder | authoring_app/views.py:38-55 | Of two entries dated by datetimes, one's key is below the other's exactly when its date is earlier. |
| Dashboard.Insert | authoring_app/views.py:52-55 | Insertion keeps the elements, since the result's multiset adds exactly the element. |
| Dashboard.SortDesc | authoring_app/views.py:52-55 | The sort is a permutation. |
| Dashboard.SortDescSorted | authoring_app/views.py:52-55 | After the sort, no key is less than a later one (`reverse=True`). |
| Dashboard.SortDescStable | authoring_app/views.py:52-55 | Elements with equal keys keep their relative order, as in Python's stable sort. |
| Dashboard.LoadAllPosts | authoring_app/views.py:30-56 | The loop that skips unreadable files and appends entries, followed by the sort, gives `SortDesc(Loaded(files), SortKey)`. |
| Dashboard.Loaded | authoring_app/views.py:31-51 | The entries of the readable files, in file order. `LoadedIff` and `LoadedCount` state which entries, and how many, there are. |
| Dashboard.SortKey | authoring_app/views.py:53 | `item.get('date') or datetime.min.isoformat()`. `EntrySortKey`, `DatedEntriesOrder` and `UndatedBelowDated` state its order. |
| Dashboard.LoadedIff | authoring_app/views.py:32-51 | An entry is listed exactly when some readable file yields it. |
| Dashboard.LoadedCount | authoring_app/views.py:32-51 | There are exactly as many entries as readable files. |
| Dashboard.DashboardOrder | authoring_app/views.py:52-55 | The dashboard is ordered latest first, is a permutation of the loaded entries, and is stable for every date key. |
| Dashboard.NewestFirst | authoring_app/views.py:40-55 | Of two listed posts with datetime dates, the one earlier in the list is not the older. |
| Dashboard.UndatedBelowDated | authoring_app/views.py:53 | The undated key `datetime.min.isoformat()` is below the ISO date of any date after 0001-01-01. |
| Dashboard.UndatedAboveMinDate | authoring_app/views.py:53 | The undated key `datetime.min.isoformat()` sorts above the ISO date 0001-01-01, whose string it extends. So an undated post is listed before a post dated 0001-01-01. |

## Left out

- I/O:
  - SQLite connections and commits, `init_db` and the `ALTER TABLE` migration, and `_database_path` directory creation.
  - File reads and writes, `Path.exists`, `unlink` and `glob`. The content directory is a map from slug to post, and `load_all_posts` receives its files as a list, already in the `sorted(glob)` order.
- Concurrency: each SQL statement is one atomic step. Interleavings are sequences of such steps (`SessionStore.Run`).
- Clocks: `CURRENT_TIMESTAMP`, `datetime.now()` and file modification times are parameters (`now`, `today`, `modified`).
- Foreign libraries:
  - `frontmatter.load` and `frontmatter.dumps` are not modelled. A readable file's front matter and a failed load (`None`) are given as input.
  - `markdown.markdown` is not modelled, and post content is an opaque string.
  - Flask, including routing, `flash`, `render_template`, `redirect`, the GET path of `edit_post`, and the preview, delete and upload routes.
  - `Path.expanduser` and `Path(...)` normalisation: `GetContentDir` returns the raw string it would expand.
- Text: non-ASCII text. `isspace`, `isalnum`, `lower` and `splitlines` follow their ASCII behaviour only.
- `BlogUtils.MetadataLineMatchesPattern`: stated for lines without "\n", which is all the scanner applies the pattern to.
- `BlogUtils.RoundPer200`: models `round(n / 200)` as exact round-half-even and ignores floating-point error. Python's float division is exact enough for any realistic word count.
- `BlogUtils.DropLeading`: the two `continue` tests of the loop ("blank once stripped" and "matches the pattern once stripped") are one skip predicate, `Skippable`. The flag logic is kept as written.
- `BlogUtils.Stats`: `parse_post`'s title, slug and date fields and its HTML are not modelled. The excerpt metadata is modelled as an optional string, so non-string metadata values are not.
- `Authoring.ContentDirectory.Submit`: assumes `frontmatter.Post` is always truthy, so `not post` means the route's file does not exist. `load_post` is modelled as that existence test.
- `Dashboard.SortDesc`:
  - It is a stable insertion sort on the date key in descending order, and is not Python's in-place Timsort. Both are stable sorts on the same key, so the order of the result is fully determined.
  - The `path` and `updated_at` fields are carried as the stem and the modification time. Other metadata fields are not modelled.
- `Dashboard.EntryOf`: slug and title values that are neither strings nor null are not modelled, so neither is their truthiness.
- `BlogUtils.FindPost`: searches only a given list of posts. Its default, which loads every post from disk when no list is passed, is not modelled, because loading is I/O.
- `Authoring.SaveResult`: compares `original_slug` with the directory's slugs as a plain key. The program reads it as a path. A form that aliases another post (`./bar`) or points outside the directory (`../x`, `/tmp/x`) does not get the program's effect here. `SaveResultAsWritten` models that effect; see "## Findings".
- `Authoring.RenameMovesPost`: "every other file is unchanged" holds over the slug-keyed map, which is the program's effect only when `original_slug` has no '/' (`SaveResultAsWrittenOfName`). A path form of the field can unlink another post's file or one outside the content directory.
- The scheduling, checkout and webhook endpoints of `app.py` are not part of this model, and neither is the grant protocol built on the store.

## Findings

| source | as written | input that shows it | evidently intended | confidence | as-written member | corrected member |
|---|---|---|---|---|---|---|
| authoring_app/views.py:87-90 | The `original_slug` form field, which is neither slugified nor checked (line 131), is joined to the content directory as a path. The file it names is unlinked on any rename. | Save `baz` with `original_slug` `../x`: `x.md` in the directory above the content directory is removed. `./bar` removes the post `bar`. | Only the file of the post whose slug is exactly `original_slug` is removed, inside the content directory. | medium; not executed | Authoring.OriginalSlugLeavesDirectory | Authoring.SaveResult |
