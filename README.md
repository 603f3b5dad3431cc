# Campus video sharing front end: search sanitiser, upload checks, like toggle

This is a Dafny model of the three pieces of logic in the React front end that are
not just remote queries followed by rendering. Each piece comes with proofs about it.

- **Search (Explore page).** `sanitizeSearchInput` escapes the user's query with five
  global replacements (`\`, `%`, `_`, `'`, `"`) and then trims it. `handleSearch`
  searches only for a query that is not blank, and splices the sanitised text into the
  `or` filter `title.ilike.%Q%,description.ilike.%Q%`. The model proves three things:
  - The replacement chain equals a single left-to-right per-character escape, so the
    backslashes inserted by later rewrites are never doubled.
  - Escaping the trimmed text is the same as trimming the escaped text.
  - The sanitised text decodes back to the trimmed query.
- **Upload page.**
  - `handleFileChange` checks, in order, that a file was chosen, its size against
    20 MiB (20971520 bytes, inclusive), and its MIME type against the prefix `video/`.
    Only a file that passes all three is stored in the two state slots, `videoFile`
    and `videoPreview`.
  - The metadata callback clears both slots for a video longer than 60 seconds.
  - `handleSubmit` stores the file under `userId/timestamp.ext`. Only after a
    successful upload does it insert a `pending` video record carrying the parsed tags.
    The tags come from `split(",")`, then `trim`, then dropping the empty ones.
- **Like button (video card).** `handleLike` flips the liked flag and moves the count
  optimistically, then issues an insert or a delete of the like row. When that write
  fails it rolls back, computing from the values captured when the handler started.

The modules are:

- `Wrappers`: `Option`.
- `JsString`: the JavaScript built-ins the code relies on:
  - `String.prototype.trim`, with the ECMAScript white-space and line-terminator set;
  - `replace(/c/g, …)` for one character;
  - `split` on one character and `startsWith` (the sequence prefix `<=`);
  - `String(n)` for a non-negative integer.
- `Explore`: the sanitiser and the search filter.
- `Upload`: the file check, the `UploadForm` class with the two state slots, tag
  parsing, the file extension and the storage path.
- `LikeToggle`: the like state machine as pure functions, and the `VideoCard` class
  with its two state fields.

## Model

| member | source | states |
|---|---|---|
| Explore.SanitizeSearchInput | src/pages/Explore.tsx:17-26 | the trim comes last, so the sanitised text has no leading or trailing whitespace |
| Explore.EscapeChain | src/pages/Explore.tsx:19-24 | the five global replacements in source order (backslash, percent, underscore, single quote, double quote); none of them shortens the text |
| Explore.EscapeChar | src/pages/Explore.tsx:20-24 | `'` becomes `''`; each of `\`, `%`, `_` and `"` becomes a backslash followed by itself (so a backslash is doubled); every other character is kept as it is |
| Explore.EscapeEach | src/pages/Explore.tsx:19-24 | the per-character escape of a text is one character longer per special character in it |
| Explore.EscapeChainIsSinglePass | src/pages/Explore.tsx:19-24 | the five chained global replacements, in source order, give exactly the per-character escape; because backslashes are doubled first, no inserted escape backslash is doubled again |
| Explore.EscapeChainLength | src/pages/Explore.tsx:19-24 | before the trim, output length = input length + number of `\`, `%`, `_`, `'`, `"` in the input |
| Explore.BackslashFirstMatters | src/pages/Explore.tsx:20-21 | the order matters: with the backslash rewrite run after the percent rewrite, `%` would become `\\%`; the chain as written gives `\%` |
| Explore.UnescapeEscapeEach | src/pages/Explore.tsx:19-24 | the escape is lossless: decoding escape sequences gives back the input, for every input |
| Explore.SanitizeIsEscapedTrim | src/pages/Explore.tsx:17-26 | escaping then trimming equals trimming then escaping, because whitespace is never escaped and no escape begins or ends with whitespace |
| Explore.SanitizeRoundTrip | src/pages/Explore.tsx:17-26 | the sanitised text decodes to the query with its surrounding whitespace removed |
| Explore.SanitizeFixedPoint | src/pages/Explore.tsx:17-26 | for a text without surrounding whitespace: it is returned unchanged if and only if it contains none of the five special characters |
| Explore.SanitizeTwice | src/pages/Explore.tsx:17-26 | sanitising a second time changes the output exactly when the output contains a special character, so the function is not idempotent |
| Explore.SanitizeBackslashTwice | src/pages/Explore.tsx:20 | one backslash sanitises to two, and those two sanitise to four |
| Explore.OrFilter | src/pages/Explore.tsx:49 | the filter template: 35 fixed characters plus the query twice, once inside the title pattern and once inside the description pattern |
| Explore.SearchFilter | src/pages/Explore.tsx:28-50 | no search if and only if the query is all whitespace (nothing after `trim`); otherwise the filter is `title.ilike.%Q%,description.ilike.%Q%`, with Q the escaped trimmed query |
| Explore.SanitizeExample | src/pages/Explore.tsx:17-26 | `50% off_test` sanitises to `50\% off\_test` |
| JsString.Trim | src/pages/Explore.tsx:25 | `trim` leaves no whitespace at either end and never lengthens its input |
| JsString.TrimIsInfix | src/pages/Explore.tsx:25 | the trimmed text is a contiguous slice of the input, with whitespace only before and after it |
| JsString.TrimEmpty | src/pages/Explore.tsx:29 | a text trims to the empty (falsy) string if and only if it is all whitespace |
| JsString.ReplaceAll | src/pages/Explore.tsx:20 | a global one-character replacement changes the length by the number of matches times the growth of each one |
| JsString.Split | src/pages/Upload.tsx:96 | `split` gives one more part than there are separators, and no part contains the separator |
| JsString.JoinSplit | src/pages/Upload.tsx:96 | joining the parts of a split with the separator gives back the input |
| JsString.SplitAround | src/pages/Upload.tsx:96 | splitting around a separator is splitting each side and concatenating, in order |
| JsString.SplitLast | src/pages/Upload.tsx:74 | the last part of a split is the suffix after the last separator, or the whole text when there is none |
| JsString.Decimal | src/pages/Upload.tsx:75 | `String(n)` of a non-negative integer is a non-empty run of digits with no leading zero |
| JsString.DecimalRoundTrip | src/pages/Upload.tsx:75 | reading the decimal digits back gives the number |
| Upload.CheckFile | src/pages/Upload.tsx:27-36 | size is checked first: a file over 20971520 bytes is too large whatever its type, and one of exactly 20971520 bytes passes; a file within the limit is a video if and only if its type starts with `video/` |
| Upload.UploadForm.constructor | src/pages/Upload.tsx:19-20 | both slots start empty: no file and an empty preview URL |
| Upload.UploadForm.HandleFileChange | src/pages/Upload.tsx:22-39 | no file selected, too large, not a video, or accepted, in that order; on any rejection both slots are unchanged; on acceptance they hold the file and its preview URL |
| Upload.UploadForm.OnLoadedMetadata | src/pages/Upload.tsx:44-51 | a duration over 60 clears both slots; a duration of exactly 60 or less leaves them unchanged |
| Upload.UploadForm.HandleSubmit | src/pages/Upload.tsx:55-110 | no file: an error and no calls; no user: an error and no calls; otherwise the first call stores the file under its storage path; the record insert follows if and only if the upload succeeded, with the user, title, description, public URL, parsed tags and status `pending`; the result reflects the failing step |
| Upload.TrimEach | src/pages/Upload.tsx:96 | `.map(tag => tag.trim())`: same length, each part trimmed in place |
| Upload.NonEmpty | src/pages/Upload.tsx:96 | `.filter(Boolean)`: keeps exactly the non-empty members: every result is a non-empty member of the input, every non-empty member of the input is in the result, and a one-element input is kept or dropped whole |
| Upload.NonEmptyAppend | src/pages/Upload.tsx:96 | filtering distributes over concatenation, so together with the one-element case the filter keeps the non-empty parts in input order |
| Upload.TrimEachAppend | src/pages/Upload.tsx:96 | trimming each part distributes over concatenation, so order is kept |
| Upload.TrimEachClean | src/pages/Upload.tsx:96 | trimmed comma-free parts are comma-free and have no surrounding whitespace |
| Upload.ParseTags | src/pages/Upload.tsx:96 | every tag is non-empty, comma-free and without surrounding whitespace; there are at most (number of commas + 1) tags |
| Upload.ParseTagsAroundComma | src/pages/Upload.tsx:96 | the tags keep input order: parsing `a,b` gives the tags of `a` followed by the tags of `b` |
| Upload.ParseTagsNoComma | src/pages/Upload.tsx:96 | a comma-free input gives no tag if it is blank, otherwise exactly its trimmed text |
| Upload.ParseTagsEmpty | src/pages/Upload.tsx:96 | no tags come out if and only if the input consists of commas and whitespace only; in particular a blank input gives none |
| Upload.FileExtension | src/pages/Upload.tsx:74 | the extension is the dot-free suffix after the last `.`; it is the whole name exactly when the name has no `.` |
| Upload.StoragePath | src/pages/Upload.tsx:75 | the template `${user.id}/${Date.now()}.${fileExt}`: it starts with the user id and a slash, and is two characters longer than the id, the timestamp digits and the extension together |
| Upload.FileExtensionAfterDot | src/pages/Upload.tsx:74 | a name ending in `.` followed by dot-free text has that text as its extension |
| Upload.StoragePathParts | src/pages/Upload.tsx:74-75 | the storage path reads back into the user id, `/`, the decimal timestamp, `.` and the extension, and the path's own extension is the file's extension |
| LikeToggle.Optimistic | src/components/VideoCard.tsx:40-42 | the flag is negated; the count becomes pre+1 for a like and pre−1 for an unlike, with no floor at zero |
| LikeToggle.OptimisticInvolution | src/components/VideoCard.tsx:40-42 | two successful toggles return to the starting state |
| LikeToggle.Rollback | src/components/VideoCard.tsx:49-63 | the failure rollback as written: the flag goes back to its pre-toggle value; the count goes back to pre after a failed like, but to pre+1 after a failed unlike |
| LikeToggle.Settle | src/components/VideoCard.tsx:40-66 | the state the handler leaves: the flag is flipped if and only if the write succeeded; on success the count moved by ±1; on failure it is pre after a like, pre+1 after an unlike |
| LikeToggle.FailedLikeRestores | src/components/VideoCard.tsx:49-51 | a failed like restores the pre-toggle state exactly |
| LikeToggle.FailedUnlikeOvershoots | src/components/VideoCard.tsx:61-63 | a failed unlike ends at (true, pre+1): not the pre-toggle state, and two above the optimistic count |
| LikeToggle.RollbackIntended | src/components/VideoCard.tsx:49-63 | the corrected rollback gives back the pre-toggle state on both paths |
| LikeToggle.SettleIntendedRestores | src/components/VideoCard.tsx:44-66 | with the corrected rollback a failed write restores the pre-toggle state, and a successful one keeps the optimistic state |
| LikeToggle.SignedIn | src/components/VideoCard.tsx:35 | `!currentUserId` is false only for a present, non-empty id; the empty string counts as no user |
| LikeToggle.RequestFor | src/components/VideoCard.tsx:44-59 | a new flag of liked issues an insert, otherwise a delete, always for the (user, video) pair |
| LikeToggle.VideoCard.constructor | src/components/VideoCard.tsx:31-32 | `localLiked` starts at `isLiked` and `likesCount` at the video's `likes_count` |
| LikeToggle.VideoCard.BeginLike | src/components/VideoCard.tsx:35-42 | with no user (an absent or empty id) nothing changes and no write is issued; otherwise the state moves to the optimistic one, the pre-toggle state is captured, and the write for the new flag is issued |
| LikeToggle.VideoCard.FinishLike | src/components/VideoCard.tsx:44-66 | a successful write keeps the state; a failed one sets the state to the rollback of the captured state and raises the like or unlike failure notice |
| LikeToggle.VideoCard.HandleLike | src/components/VideoCard.tsx:34-68 | with no user: the login notice, no write, no `onLikeChange` call, state unchanged; with one: exactly one write for the pair, the state settles as optimistic or rolled back, and `onLikeChange` is called exactly once whatever the outcome |

## Left out

- The backend calls are parameters of the model: authentication, storage upload, public URL, and the table select, insert and delete. The model takes the signed-in user, the success of each write and the public URL as inputs. It records the writes it would issue as values.
- The result of the search query, the `published` status filter and the ordering by creation date are not modelled. Neither is the fetch of the user's liked videos in `handleSearch`: it is a query followed by a one-line set construction. Only the blank-query guard and the `or` filter string are modelled.
- The `loading` flags of the Explore and Upload pages are not modelled. Neither are the text inputs' `onChange` handlers: title, description and tags come in as parameters of `HandleSubmit`.
- Browser APIs are left out: toasts (modelled as verdict and notice values), `navigate`, `navigator.share` and the clipboard. `URL.createObjectURL` and `revokeObjectURL` are also left out; the preview URL is a parameter.
- `Date.now()` is a parameter `now: nat`. `String(n)` is modelled for non-negative integers written in plain digits. The exponent form JavaScript uses from 10^21 upward is not modelled.
- `video.duration` is a `real`. Floating point, `NaN` and the asynchronous loading of the metadata are not modelled. `OnLoadedMetadata` can also be called when no file was accepted in between, in which case it only clears what is there.
- Races between overlapping like toggles, searches or submissions are not modelled: these are concurrency, and the code promises no order. `BeginLike` and `FinishLike` model one toggle at a time.
- The `maxLength` attributes of the form inputs are not modelled.
- Strings are sequences of Unicode characters, not UTF-16 code units. `trim` uses the ECMAScript white-space and line-terminator characters.
- src/pages/Home.tsx, src/pages/Profile.tsx and src/components/Navbar.tsx are not part of this model. They fetch and render, toggle a theme class, and navigate.
- Explore.Unescape is a decoder internal to the model. It shows that the escape loses no information. It makes no claim about how PostgREST or PostgreSQL read the pattern.

## Findings

| source | as written | input that shows it | evidently intended | confidence | as-written member | corrected member |
|---|---|---|---|---|---|---|
| src/components/VideoCard.tsx:61-63 | after a failed unlike, the count is set to the count captured when the handler started, plus one | `localLiked = true`, `likesCount = 5`, the delete fails: the card shows liked with 6, and the toggle only displayed 4 | restore 5, as the failed-like branch (lines 49-51) restores its captured count | high; not executed | LikeToggle.FailedUnlikeOvershoots | LikeToggle.SettleIntendedRestores |

The `VideoCard` class follows the code as written: `FinishLike` and `HandleLike` settle through
`Rollback`, and `FailedUnlikeOvershoots` exhibits the overshoot. The corrected rollback,
`RollbackIntended`, and the state it settles in, `SettleIntended`, sit beside it.
`SettleIntendedRestores` proves that with them every failed write restores the pre-toggle state.
