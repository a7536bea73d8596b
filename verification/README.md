# s3-manager browser client: navigation, selection and request building

This project models the client-side core of a browser file manager for an
object store (`static/app.js`). Buckets hold keys in a flat namespace, and the
client simulates folders with `/`-separated key prefixes. The model covers:

- the client state: the current bucket, the current prefix, and the
  multi-selection, which is a JavaScript `Map` from path to `{path, type}`;
- the handlers that change that state: choosing a bucket, navigating,
  going up, re-rendering the listing, plain and Ctrl clicks, and the reset
  after the current bucket is deleted. The "New Folder" button's refusal
  while no bucket is chosen (static/app.js:349-353) is the plain definition
  `Client.ClientState.NewFolderRefusal`;
- the requests every action would send. Each handler returns them as values
  instead of calling `fetch`. These are one copy, move or delete request per
  selected item in the Map's iteration order, the new-folder key and the
  upload keys;
- the string arithmetic behind all of this: the parent prefix, display
  names, copy/move destination keys, new-folder and upload keys, and the
  breadcrumb segments. JavaScript's `split`/`join` on a one-character
  separator, `filter`, `includes`, `replace(str, '')` (first occurrence
  only), `trim` and UTF-16 `length` are modelled exactly. `indexOf` is
  modelled with positions counted in characters (see Left out);
- bucket-name validation before a create request, with the first failing
  check reported, and the rewording of the backend's create error;
- how each reply becomes a notification. The network is an input: each
  request has an `Outcome`, which is a JSON reply or a network failure.

Modules:

- `Js`: the string built-ins.
- `Paths`: prefix and key arithmetic.
- `BucketName`: validation and error rewording.
- `Selection`: the selection Map, its iteration order and the CSS
  `selected` markers.
- `Breadcrumb`: the trail segments.
- `Requests`: requests, replies and notices.
- `Client`: the `ClientState` class, and the per-item loops that build
  request batches.

Two behaviours of the code are easy to miss, and the model keeps both:

- Navigation never clears the selection. `selectBucket`, `navigateTo` and
  the reset after a bucket is deleted leave `selectedItems` as it is.
  Re-rendering the listing only drops the highlight markers. So after
  navigating, the Map still holds items that are no longer highlighted
  (`Selection.ModifierClickAfterRender`).
- `deleteSelected` has no empty-selection check. Copy and move have one,
  but only in the dialog openers, which are not modelled.

## Model

| member | source | states |
|---|---|---|
| Js.OrElse | static/app.js:437 | `v` or `fallback` is always one of its two operands. It is the left one whenever that is a non-empty string, and it is non-empty exactly when either operand is. |
| Js.Split | static/app.js:108 | `split(sep)` always yields at least one piece, and no piece contains the separator. |
| Js.JoinSplit | static/app.js:133-135 | Joining the pieces of `split(sep)` with `sep` gives back the original string. |
| Js.SplitJoin | static/app.js:133-135 | Splitting a join of separator-free pieces gives back the pieces. |
| Js.NonEmpty | static/app.js:108 | `filter(p => p)` keeps exactly the non-empty pieces and never lengthens the list. |
| Js.SplitAfterPiece | static/app.js:108 | A separator-free piece followed by the separator splits off as one piece. |
| Js.SplitPiece | static/app.js:108 | A separator-free string splits into itself alone. |
| Js.NonEmptyAppend | static/app.js:108 | `filter(p => p)` distributes over concatenation. |
| Js.IndexFrom | static/app.js:142 | A found index is at or after the start, and the pattern occurs there. |
| Js.IndexFromIsFirst | static/app.js:438-440 | The index `indexOf` finds is the first occurrence at or after the start. When it finds nothing, the pattern occurs nowhere there. |
| Js.FirstOccurrenceFound | static/app.js:142 | Conversely, the first occurrence is the one `indexOf` returns. |
| Js.NoOccurrenceFound | static/app.js:438-440 | With no occurrence at or after the start, `indexOf` finds nothing. |
| Js.IncludesIff | static/app.js:438-440 | `includes` holds exactly when the pattern occurs at some index. |
| Js.LeadingOccurrenceIsFirst | static/app.js:151 | On a string that starts with the pattern, `replace(pat, '')` strips that leading copy: it equals prefix stripping. |
| Js.RemoveEmpty | static/app.js:151 | `replace('', '')` with an empty current prefix leaves the string unchanged. |
| Js.RemoveFirst | static/app.js:142-151 | The definition of `replace(pat, '')` with a string pattern: the text before the first occurrence followed by the text after it, or the string itself when the pattern does not occur. `Js.LeadingOccurrenceIsFirst`, `Js.RemoveEmpty` and `Js.FirstSeparator` state what it does in the cases the listing meets. |
| Js.FirstSeparator | static/app.js:142 | `replace('/', '')` removes the first `/`. After a slash-free part, that is the one right after it. |
| Js.AbsentCharRulesOut | static/app.js:438-440 | If a string lacks one of a pattern's characters, it does not include the pattern. |
| Js.TrimStart | static/app.js:394 | Leading trim drops only whitespace, keeps a suffix, and leaves no leading whitespace. |
| Js.TrimEnd | static/app.js:394 | Trailing trim drops only whitespace, keeps a prefix, and leaves no trailing whitespace. |
| Js.TrimStartSkips | static/app.js:394 | Leading trim removes exactly a whitespace run in front of text that does not start with whitespace. |
| Js.TrimEndSkips | static/app.js:394 | Trailing trim removes exactly a whitespace run after text that does not end with whitespace. |
| Js.TrimSurrounded | static/app.js:394 | `trim` removes exactly the leading and trailing ECMAScript whitespace and line terminators. |
| Js.TrimIdempotent | static/app.js:394 | Trimming twice is the same as trimming once. |
| Js.Utf16Length | static/app.js:408 | `length` counts UTF-16 code units: between one and two per character. |
| Js.BmpUtf16Length | static/app.js:408 | For text without supplementary characters, `length` is the character count. |
| Paths.Components | static/app.js:108 | `split('/').filter(p => p)` yields only non-empty, slash-free components. |
| Paths.PrefixOfSnoc | static/app.js:111 | Appending `part + '/'` to an accumulated path extends its component list by `part`. |
| Paths.PrefixOfShape | static/app.js:111 | An accumulated path is empty exactly when no component was added, and otherwise it ends with `/`. |
| Paths.SplitPrefixOf | static/app.js:108 | Splitting an accumulated path on `/` gives its components plus one trailing empty piece. |
| Paths.NonEmptyKeepsValid | static/app.js:108 | Filtering out empty pieces keeps a list of valid components as it is. |
| Paths.ComponentsOfPrefix | static/app.js:108 | Reading the components back from a prefix built from valid components gives those components. |
| Paths.PrefixOfCanonical | static/app.js:111 | Every prefix accumulated from components is in normal form. |
| Paths.CanonicalShape | static/app.js:135 | A normal-form prefix is "" or ends with `/`. |
| Paths.JoinThenSlash | static/app.js:135 | `parts.join('/') + '/'` of a non-empty list is the path accumulated from it. |
| Paths.ParentPrefix | static/app.js:133-135 | The definition of the ".." target: split and filter the prefix, pop the last component, join with `/`, and add a `/` unless nothing is left. `Paths.ParentDropsLastComponent` and `Paths.ParentOfChild` state its properties. |
| Paths.ParentDropsLastComponent | static/app.js:133-135 | The ".." target has the components of the current prefix minus the last. It is in normal form, and it is "" or ends with `/`. |
| Paths.ParentOfChild | static/app.js:133-135 | Going up from `p + c + '/'` returns to the normal-form prefix `p`. |
| Paths.ParentExamples | static/app.js:133-135 | "a/b/" goes up to "a/", "a/" goes up to "", and "" stays "". |
| Paths.FolderName | static/app.js:142 | The definition of a folder row's text: remove the first occurrence of the prefix, then the first `/`. `Paths.FolderNameOfChild` and `Paths.NewFolderRoundTrip` state what it shows. |
| Paths.FileName | static/app.js:151 | The definition of a file row's text: remove the first occurrence of the prefix. `Paths.FileNameUnderPrefix`, `Paths.FileNameAtRoot` and `Paths.UploadRoundTrip` state what it shows. |
| Paths.FolderNameOfChild | static/app.js:142 | A folder one level below the prefix, `prefix + name + '/'`, is shown as `name`. |
| Paths.FileNameUnderPrefix | static/app.js:151 | A file key under the prefix is shown as the rest of the key, and prefix plus shown name gives back the key. |
| Paths.FileNameAtRoot | static/app.js:151 | At the root a file is shown by its whole key. |
| Paths.FolderNameExample | static/app.js:142 | "docs/reports/" under "docs/" is shown as "reports". |
| Paths.FileNameExample | static/app.js:151 | "docs/readme.txt" under "docs/" is shown as "readme.txt". |
| Paths.DestKey | static/app.js:249 | The definition of the copy/move destination: `destPath` followed by the source key with its first occurrence of the prefix removed. `Paths.DestKeyRebases`, `Paths.DestKeyRoundTrip` and `Paths.DestKeyOfForeignKey` state its properties. |
| Paths.DestKeyRebases | static/app.js:248-249 | For a source key under the current prefix, the copy/move destination is `destPath` followed by the rest of the key. |
| Paths.DestKeyRoundTrip | static/app.js:277-278 | Moving back from `destPath` to the original prefix reproduces the source key. |
| Paths.DestKeyOfForeignKey | static/app.js:249 | A key not under the prefix loses a middle occurrence of the prefix: "x/a/f" under "a/" is sent to "dst/" as "dst/x/f". |
| Paths.NewFolderKey | static/app.js:505 | The new folder key is the prefix, then the name, then `/`: it extends the prefix by exactly the name and one `/`. |
| Paths.NewFolderRoundTrip | static/app.js:505 | A new folder with a slash-free name is listed back under that name. Its parent is the prefix it was created in, and its key is in normal form. |
| Paths.UploadKey | static/app.js:533 | The upload key is the prefix followed by exactly the file name. |
| Paths.UploadRoundTrip | static/app.js:533 | An uploaded file is listed back under the name it was uploaded with. |
| BucketName.Validate | static/app.js:394-418 | The definition of `createBucket`'s validation: trim the input, then run the checks. `BucketName.TrimInsensitive` and `BucketName.FirstFailureWins` state its properties. |
| BucketName.Checks | static/app.js:395-418 | The definition of the four checks in the order they run, reporting the first that fails. `BucketName.AcceptsExactly` states exactly which names pass. |
| BucketName.FirstFailureWins | static/app.js:394-418 | The reported check fails, every check that runs earlier passes, and an accepted name passes all four checks. |
| BucketName.AcceptsExactly | static/app.js:402-418 | The checks accept exactly the names of 3–63 characters from `[a-z0-9-]` that start and end with `[a-z0-9]`. This holds in both directions. |
| BucketName.NameCharsLength | static/app.js:408 | For names made of `[a-z0-9-]`, `length` is the character count. |
| BucketName.NoUppercaseInNameChars | static/app.js:402 | A name made of `[a-z0-9-]` never trips the uppercase check. |
| BucketName.TrimInsensitive | static/app.js:394 | Surrounding whitespace never changes the validation outcome. |
| BucketName.UppercaseReportedFirst | static/app.js:402-405 | "AB" is rejected by the uppercase check, before length is checked. |
| BucketName.ShortNameRejected | static/app.js:408-411 | "ab" is rejected by the length check. |
| BucketName.LeadingHyphenRejected | static/app.js:414-417 | "-abc" passes the length check and is rejected by the pattern. |
| BucketName.CreateErrorText | static/app.js:437-442 | The definition of the create-error rewording. `BucketName.CreateErrorCases` and `BucketName.CreateErrorIdempotent` state its properties. |
| BucketName.CreateErrorCases | static/app.js:437-442 | Text containing "not available" becomes the name-taken message, and that test comes first. Text containing "InvalidBucketName" becomes the format message. Any other text passes through verbatim, and a missing error shows "Create failed". |
| BucketName.NoMarkerIn | static/app.js:439-441 | None of the three fixed texts contains either marker. |
| BucketName.CreateErrorIdempotent | static/app.js:437-442 | Rewording an already reworded text leaves it unchanged. |
| Selection.Without | static/app.js:187 | After `Map.delete` the order holds every other key and not the deleted one, and it stays duplicate-free. |
| Selection.WithoutMissing | static/app.js:187 | Deleting a key that is not in the Map leaves the iteration order unchanged. |
| Selection.WithoutCutsOut | static/app.js:187 | Deleting a key from a duplicate-free order cuts out its one place, and the keys before and after it keep their order. |
| Selection.Render | static/app.js:125-127 | A re-render keeps the Map's contents and order and drops every highlight. |
| Selection.Select | static/app.js:181-195 | The definition of a click, with and without the modifier key. `Selection.SelectWellFormed`, `Selection.PlainClickReplaces`, `Selection.ModifierClickToggles`, `Selection.ModifierClickTwice` and `Selection.ModifierClickAfterRender` state its properties. |
| Selection.SelectWellFormed | static/app.js:181-195 | Every click keeps the Map invariant: distinct keys in order, and each entry keyed by its own path. |
| Selection.PlainClickReplaces | static/app.js:190-193 | A plain click leaves exactly `{path ↦ (path, type)}` selected, with only that entry highlighted. |
| Selection.ModifierClickToggles | static/app.js:182-188 | While highlights and the Map agree, a Ctrl click flips only the clicked path. Other entries are unchanged, and the two still agree. |
| Selection.ModifierClickTwice | static/app.js:182-188 | Two Ctrl clicks on the same entry restore the Map's contents and the highlights. A previously selected entry moves to the end of the iteration order. |
| Selection.WithoutAbsent | static/app.js:187 | Deleting the key that was just appended restores the previous order. |
| Selection.ModifierClickAfterRender | static/app.js:182-188 | After a re-render, a Ctrl click on an entry that is still selected highlights it and keeps it selected. |
| Selection.ValuesVisitEachOnce | static/app.js:248 | `forEach` over a well-formed Map visits each entry exactly once, in order, one value per key. |
| Selection.OrderCoversItems | static/app.js:3 | The iteration order has exactly as many paths as the Map has entries. |
| Breadcrumb.AsWrittenTrail | static/app.js:98-118 | The trail as written: the bucket segment, then one segment per component, labelled by the component. Every click target is the whole accumulated prefix. |
| Breadcrumb.AsWrittenTargetsCurrent | static/app.js:109-114 | As written, every component segment of a normal-form prefix navigates back to that same prefix. |
| Breadcrumb.TrailsDiverge | static/app.js:109-114 | For "a/b/", the "a" segment leads to "a/b/" as written, and to "a/" as intended. |
| Breadcrumb.CumulativeTrail | static/app.js:107-116 | The intended trail has the same length and labels as the trail as written. |
| Breadcrumb.CumulativeSegmentsSnoc | static/app.js:110-114 | Each loop step adds one segment, whose target is the prefix accumulated so far. |
| Breadcrumb.CumulativeTargetIs | static/app.js:111 | Segment i targets the prefix of the first i components. |
| Breadcrumb.CumulativeTargetCanonical | static/app.js:111 | Segment i's target holds exactly the first i components and is in normal form. |
| Breadcrumb.CumulativeTargetParent | static/app.js:111 | Going up from segment i + 1's target lands on segment i's target. |
| Breadcrumb.CumulativeTargets | static/app.js:107-116 | In the intended trail every target is in normal form with the first i components. Going up moves one segment left, and the last segment of a normal-form prefix is the prefix itself. |
| Requests.CreateBucketAction | static/app.js:393-424 | The definition of the create button: a failed check becomes its message, and an accepted name becomes a create request. `Requests.CreateRequestOnlyWhenValid` states when each happens. |
| Requests.CreateRequestOnlyWhenValid | static/app.js:393-424 | A create request is sent exactly for names the checks accept, and it carries the trimmed name. Otherwise a failing check's message is shown. |
| Requests.CreateBucketSettled | static/app.js:429-451 | Only a reply with a message counts as a success. A success shows that message and reloads the bucket list (`ListBuckets`). A failure shows the reworded error `CreateErrorText(error)`. A network error shows the server hint. Every outcome shows a non-empty text. |
| Requests.DeleteBucketAction | static/app.js:454-471 | The definition of the delete-bucket button. `Requests.DeleteBucketNeedsNameAndConfirmation` states when a request is sent. |
| Requests.DeleteBucketNeedsNameAndConfirmation | static/app.js:454-471 | A delete request is sent exactly when the prompt is confirmed and the trimmed name is non-empty, and it carries the trimmed name. Pre-trimming the input changes nothing. |
| Requests.Fallback | static/app.js:519 | Every per-item request has a non-empty fallback failure text. |
| Requests.Settle | static/app.js:513-520 | A reply yields a notice and a network error yields none, because these chains have no `catch`. A success notice shows `message`. A failure shows `error` when that is non-empty, and otherwise the request's fallback. Every notice is non-empty. |
| Requests.BatchNoticeCounts | static/app.js:248-268 | In a fire-and-forget batch, each answered request yields one notice and each lost request none. The success notices are exactly the successful replies. |
| Client.ClientState.constructor | static/app.js:1-3 | No bucket, the root prefix, an empty selection. |
| Client.ClientState.SelectBucket | static/app.js:80-84 | Sets the bucket, resets the prefix to "", keeps the selection, and reloads the listing. |
| Client.ClientState.NavigateTo | static/app.js:120-123 | Changes only the prefix and reloads the listing. |
| Client.ClientState.GoUp | static/app.js:132-135 | Moves to the parent prefix, whose components drop the last one. Nothing else changes. |
| Client.ClientState.UpdateBreadcrumb | static/app.js:98-118 | The loop accumulates the path and builds the intended cumulative trail. The shared-variable divergence is listed under Findings. |
| Client.ClientState.ContentsLoaded | static/app.js:91-93 | A missing `folders` or `files` counts as []. The rows are rebuilt, highlights are dropped, and the bucket, the prefix and the Map are kept. The breadcrumb returned is the intended cumulative trail; what the code builds is `Breadcrumb.AsWrittenTrail` (see Findings). |
| Client.ClientState.SelectItem | static/app.js:181-195 | The selection becomes the clicked result, with the Map invariant kept. Bucket and prefix are unchanged. |
| Client.ClientState.TransferItems | static/app.js:244-300 | One copy/move request per selected entry, in the Map's iteration order (the batch `Client.TransferBatchRebases` describes), and then one listing reload. |
| Client.ClientState.DeleteSelected | static/app.js:302-313 | Nothing unless confirmed. Then one delete per selected entry, in the Map's order, routed as `Client.DeleteRouting` states. |
| Client.ClientState.CreateFolderRequests | static/app.js:501-511 | An empty name sends nothing. Any other name sends one request for the key made of the prefix, the name and `/`. When the name has no `/` and the prefix is in normal form, that key lists back under the name and goes up to the prefix. |
| Client.ClientState.UploadFiles | static/app.js:524-535 | Without a bucket: no request, and a failure notice. Otherwise one upload per file, in order, at `prefix + name`. |
| Client.ClientState.ItemReplied | static/app.js:513-521 | The reply's notice. A success of a create, delete or upload (but not a copy or move) reloads the listing. |
| Client.ClientState.BucketDeleted | static/app.js:476-498 | A success shows the message and reloads the bucket list. If the current bucket was deleted, the client goes back to no bucket at the root and re-renders an unlabelled breadcrumb and an empty listing, and the Map is kept. A failure changes nothing and shows `error` or "Delete failed". A network error shows "Network error occurred". |
| Client.DropLast | static/app.js:134 | `pop()` on the component copy removes exactly the last component: putting it back gives the original list. An empty list stays empty. |
| Client.FileList | static/app.js:125-156 | The rendered rows are the listing. |
| Client.Rows | static/app.js:150-155 | Each `forEach` renders one row per listed path, in order. |
| Client.ListingLayout | static/app.js:129-155 | Below the root the first row is "..". Then come one row per folder and then one per file, in listing order, each selecting its own path and kind. |
| Client.FolderRowShowsComponent | static/app.js:142 | A folder row one level below the prefix shows its own component. |
| Client.FileRowShowsRest | static/app.js:151 | A file row under the prefix shows the rest of its key, and the prefix completes it back to the key. |
| Client.Transfers | static/app.js:248-268 | The copy/move loop emits the batch for the given items. |
| Client.TransferBatchRebases | static/app.js:248-249 | Each item appears once as the source, from the current bucket. A key under the prefix lands at `destPath` plus its rest, and the reverse transfer restores it. |
| Client.Deletes | static/app.js:304-310 | The delete loop emits the batch for the given items. |
| Client.DeleteRouting | static/app.js:305-309 | A file goes to the file endpoint and anything else to the folder endpoint, each with the item's own path. |
| Client.DeleteBatchCovers | static/app.js:304-310 | Every selected entry gets exactly one delete, in iteration order. |
| Client.Uploads | static/app.js:530-533 | The upload loop emits one upload per chosen file. |
| Client.UploadBatchNames | static/app.js:533 | Each upload goes to the current bucket and is listed back under its own name. |

## Left out

- `indexOf` positions are counted in characters, not in UTF-16 code units, so they differ after a character above U+FFFF. The code reads no position: it only uses `includes` and `replace`, whose results do not depend on how positions are counted.
- Presentation is not modelled: `createFileItem`, sizes, modals, the context menu and its positioning, and `hideModal` (static/app.js:158-179, 197-242, 354-391). A row is modelled by the item it selects. Its text comes from `Client.Shown`, computed from the path and the prefix.
- `copySelected`/`moveSelected` open the copy/move dialog only for a non-empty selection. The dialogs' default values are not modelled either; `TransferItems` takes the destination as parameters.
- Network and timing are not modelled: `fetch`, promise scheduling, and completion order. Each request's outcome is a parameter. Notices are values, not a log, and the 3-second removal in `showMessage` is not modelled.
- The `catch` of `loadContents` only shows a fixed "Failed to load contents" notice, and it is not modelled.
- `checkAWSStatus` and the rendering of the bucket list in `loadBuckets` are not modelled; only the `ListBuckets` request they lead to is.
- The `confirm` prompts are boolean inputs. `event.ctrlKey` is the `additive` parameter of the click.
- Query strings are built without URL encoding (static/app.js:89). The model sends the bucket and prefix as values.
- A reply's `message` and `error` are modelled as optional strings. JSON values of other types, and their truthiness, are not modelled.
- Strings are sequences of Unicode scalar values, so lone surrogates cannot be expressed. `length` is still counted in UTF-16 code units.
- The Flask routes (app.py) and the storage wrappers (s3_utils.py) are not part of this model.

## Findings

| source | as written | input that shows it | evidently intended | confidence | as-written member | corrected member |
|---|---|---|---|---|---|---|
| static/app.js:109-114 | One `let path` is shared by every segment's click handler. Each handler reads it after the loop, so every component segment navigates to the whole current prefix. | prefix "a/b/": the "a" segment navigates to "a/b/" | segment i navigates to the first i components: "a" to "a/" | not executed | Breadcrumb.AsWrittenTrail, Breadcrumb.TrailsDiverge | Breadcrumb.CumulativeTrail, Breadcrumb.CumulativeTargets |
