# OXID eShop: request escaping, review deletion and review-list paging in Dafny

This project models three pieces of the OXID eShop community edition and
proves properties about them.

- **Request escaping** (`Core/Request.php`).
  - `replaceSpecialChars` turns a request value into its HTML-safe form:
    - strings go through a fixed nine-entry `str_replace` table;
    - arrays are rebuilt entry by entry, with keys and values escaped
      recursively unless the key is in a raw list;
    - every other value passes through unchanged.
  - `checkParamSpecialChars` does the same and writes the result back into
    its by-reference argument.
  - `getRequestParameter` looks a name up in POST, then in GET, then falls
    back to the default.
  - `getRequestEscapedParameter` escapes that result outside admin sessions.
  - `getRequestUrl` rebuilds the current URL for GET requests:
    - `index.php` plus the query part;
    - session id and form token parameters removed;
    - a trailing `&` dropped;
    - every `&` written as `&amp;`.
- **Review deletion** (`Internal/Service/UserService.php`).
  - `deleteArticleReview` first checks that the review belongs to the acting
    user and that it reviews an article.
  - It then opens a transaction. Inside it the rating row of a rated review
    is deleted, then the review, then the transaction is committed.
  - Any storage exception rolls the transaction back and is rethrown.
  - The database is a class over an abstract store: a set of review ids and
    a sequence of rating rows keyed by (object id, user id, shop id, type).
    It also holds the snapshot taken at transaction start and a log of the
    calls made.
  - A storage failure is injected as a parameter naming the call that throws
    and the class of the exception.
  - `UserService` is a class with the acting user, the database and the shop
    id fixed at construction.
- **Review-list paging** (`Application/Controller/AccountReviewController.php`).
  - The page count is the ceiling of the review count over 10 per page.
  - The list window is 10 items at offset page × 10.
  - After a deletion the user is redirected to the list path. The current
    page is clamped to the last page; `?pgNr=<page>` is added when that page
    is past the first.
  - The deletion itself happens only when the session challenge passes.
  - `getPageNavigation` stores the page count in the controller's
    `_iCntPages` field.

Modules:

- `Wrappers`: `Option`, `Result`, `Outcome`.
- `SpecialChars`: the escaping engine as functions. This includes the
  sequential `str_replace` and its per-character reference `EscapeString`,
  with the decoding partner `Unescape`.
- `Request`: the imperative `foreach` loop, the by-reference slot and the
  parameter lookup.
- `RequestUrl`: `getRequestUrl`, with the two `preg_replace` patterns written
  out as scanners.
- `ReviewStore`: the store, its transitions and the `Database` class.
- `Service`: the `UserService` class and the deletion specification.
- `AccountReview`: paging, the redirect path and the controller class.
- `SpecialCharsExamples` and `RequestUrlExamples`: the repository's unit-test
  inputs and outputs, stated as lemmas.

## Model

| member | source | states |
|---|---|---|
| SpecialChars.ReplaceInString | source/Core/Request.php:154-159 | the string branch's `str_replace` over the nine-entry table equals the per-character escape `EscapeString` |
| SpecialChars.StrReplaceIsEscapeString | source/Core/Request.php:155-159 | the sequential replacement (`&` first) never re-escapes an inserted entity, so it equals replacing each character by its escaped form |
| SpecialChars.TableHasNoReescape | source/Core/Request.php:156-157 | no later search character occurs in an earlier replacement, and the search characters are distinct |
| SpecialChars.TableIsEscapeChar | source/Core/Request.php:156-157 | the replacement table pairs each search character with the escaped form of `EscapeChar` |
| SpecialChars.StrReplace | source/Core/Request.php:155-159 | `str_replace` with arrays: each search character in turn is replaced by its replacement throughout the subject (a definition; StrReplaceIsEscapeString states what it computes with the table) |
| SpecialChars.StrReplaceConcat | source/Core/Request.php:155-159 | the sequential replacement distributes over concatenation |
| SpecialChars.EscapeStringConcat | source/Core/Request.php:155-159 | escaping distributes over concatenation |
| SpecialChars.EscapedStringHasNoSpecialChars | source/Core/Request.php:156-157 | no `<`, `>`, `"`, `'`, NUL, `\`, LF or CR survives escaping |
| SpecialChars.EscapeStringOfPlain | source/Core/Request.php:155-159 | a string with none of the nine characters is returned unchanged |
| SpecialChars.UnescapeEscapeString | source/Core/Request.php:155-159 | decoding the entities of an escaped string gives the input back with its NUL characters removed |
| SpecialChars.EscapeStringInjective | source/Core/Request.php:155-159 | two NUL-free strings with the same escaped form are equal |
| SpecialChars.FindKey | source/Core/Request.php:151 | finds the first position of a key, or reports that the key is absent (both directions) |
| SpecialChars.Put | source/Core/Request.php:151 | `$a[$k] = $v`: keys stay unique; the entry is present; a new key is appended at the end; entries with other keys are kept; nothing else appears |
| SpecialChars.EscapeArray | source/Core/Request.php:140-153 | the rebuilt array has unique keys and no more entries than the input |
| SpecialChars.Escape | source/Core/Request.php:134-163 | a string is escaped; an array becomes an array with unique keys; objects, null, booleans, integers and floats are returned unchanged |
| SpecialChars.EscapeArrayPrefix | source/Core/Request.php:142-152 | one more input entry assigns that entry's escaped key and value into the array built so far |
| SpecialChars.EscapeArrayPointwise | source/Core/Request.php:142-152 | when escaped keys do not collide, the result keeps the input's order: a raw-list entry is kept whole, any other has its key and value escaped, the nested call getting no raw list |
| SpecialChars.EscapeArrayLastWins | source/Core/Request.php:151 | every entry of the result is the escaped form of an input entry that no later input entry overwrites |
| SpecialChars.PutAllLastWins | source/Core/Request.php:151 | assigning entries in turn keeps keys unique, and keeps only the last entry with each key |
| SpecialChars.PutAllKeepsSlot | source/Core/Request.php:151 | later assignments of other keys leave an entry at its position |
| SpecialChars.PutAllPosition | source/Core/Request.php:151 | conversely, the last entry with each key is in the array, at the position reached when its key was first assigned |
| SpecialChars.EscapeArrayLastKept | source/Core/Request.php:142-152 | conversely, the escaped form of an input entry that no later entry overwrites is in the result, at the position reached when the first entry with its escaped key came |
| SpecialChars.NulFreeKeysStayDistinct | source/Core/Request.php:145-146 | distinct keys without NUL stay distinct after escaping |
| Request.ReplaceSpecialChars | source/Core/Request.php:134-163 | the method returns exactly `Escape` of its argument and changes nothing else |
| Request.ReplaceInArray | source/Core/Request.php:140-153 | the `foreach` loop builds exactly `EscapeArray` of the entries (loop invariant: the array of the entries seen so far) |
| Request.ReplaceInEntry | source/Core/Request.php:142-151 | one loop pass yields the entry unchanged for a raw key, otherwise with key and value escaped |
| Request.ValueSlot.constructor | source/Core/Request.php:119 | a by-reference variable holding the given value |
| Request.IsSet | source/Core/Request.php:39-41 | `isset($a[$name])`: the name is a key and its value is not null (a definition; the lookup lemmas state its effect) |
| Request.CheckParamSpecialChars | source/Core/Request.php:119-123 | the variable now holds `Escape` of its old value, and that is also what is returned |
| Request.GetRequestParameter | source/Core/Request.php:37-48 | the result is a POST value, a GET value or the default; with POST unset and GET set it is the GET value; it is null only when the default is null |
| Request.PostTakesPrecedence | source/Core/Request.php:39-40 | a set POST value is returned whatever GET holds |
| Request.NullPostFallsThrough | source/Core/Request.php:39-42 | a POST entry holding null counts as unset, and the lookup goes on to GET |
| Request.DefaultWhenUnset | source/Core/Request.php:43-45 | with neither array setting the name, the default is returned |
| Request.GetWhenPostUnset | source/Core/Request.php:41-42 | with the name unset in POST and set in GET, the GET value is returned |
| Request.RawParameterTestVectors | tests/Unit/Core/RequestTest.php:56-73 | a posted `testValue` and a `testValue` in GET are returned as they are; `nonExisting` gives the default `defaultValue` |
| Request.EscapedValue | source/Core/Request.php:60-68 | null stays null; in an admin session the value is unchanged; otherwise it is escaped |
| Request.GetRequestEscapedParameter | source/Core/Request.php:58-69 | the method returns the looked-up value, escaped unless null or in an admin session |
| Request.EscapedStringParameterIsSafe | source/Core/Request.php:58-69 | outside admin sessions an escaped string parameter has no markup character and no line break |
| Request.DefaultIsEscaped | source/Core/Request.php:58-69 | a missing name returns the default, escaped |
| Request.EscapedParameterTestVectors | tests/Unit/Core/RequestTest.php:39-54 | a posted `&test` comes back as `&amp;test`; a missing name with no default gives null, and with the default `defaultValue` gives `defaultValue` |
| RequestUrl.FirstIndex | source/Core/Request.php:90 | `stripos` for one character: the first position holding it, or none when the character is absent |
| RequestUrl.Optional | source/Core/Request.php:96 | an optional group of the pattern matches its whole word at the position, or nothing |
| RequestUrl.NameLength | source/Core/Request.php:96-97 | a matched parameter name ends with its `=` inside the text |
| RequestUrl.ValueLength | source/Core/Request.php:96-97 | `[^&]*&?` never runs past the end of the text |
| RequestUrl.ValueLengthIsFirstAmpersand | source/Core/Request.php:96-97 | `[^&]*&?` runs up to and including the first `&`, or to the end of the text |
| RequestUrl.MatchLength | source/Core/Request.php:96-97 | a match exists exactly when a `&` or `?` is followed by the parameter's name; it covers at least the delimiter and the name |
| RequestUrl.RemoveParam | source/Core/Request.php:96-97 | the replacement never lengthens the text and keeps its first character |
| RequestUrl.DropTrailingAmpersand | source/Core/Request.php:98 | `/&$/` removes a final `&`, or a `&` just before a final newline, and changes nothing else |
| RequestUrl.FormatRequestUrl | source/Core/Request.php:93-99 | `index.php` and the query, through the two replacements, the `/&$/` removal and the `&amp;` escape (a definition; FormattedUrlShape states its shape) |
| RequestUrl.RawRequestUrl | source/Core/Request.php:83-87 | REQUEST_URI when set and truthy, else SCRIPT_URI (a definition; GetQuery uses it) |
| RequestUrl.QueryPart | source/Core/Request.php:82-90 | a definition of which query part is formatted; QueryPartSpec states its meaning |
| RequestUrl.QueryPartSpec | source/Core/Request.php:82-93 | there is a query part exactly when the request is not a POST and the chosen URI is truthy and holds a `?`; it is then the URI's suffix from its first `?` |
| RequestUrl.GetRequestUrl | source/Core/Request.php:79-104 | a POST request gives ""; the result is non-empty exactly when a truthy URI has a `?`; a non-empty result starts with `index.php?` and every `&` in it begins `&amp;` |
| RequestUrl.RemoveParamPlainPrefix | source/Core/Request.php:96-97 | text with no `&` or `?` passes through the replacement unchanged |
| RequestUrl.RemoveParamNoMatch | source/Core/Request.php:96-97 | where no delimiter is followed by the parameter's name, nothing is removed |
| RequestUrl.DropParam | source/Core/Request.php:96-97 | a delimiter, the parameter and its `&` are replaced by the delimiter alone |
| RequestUrl.DropLastParam | source/Core/Request.php:96-97 | a parameter at the very end is replaced by its delimiter |
| RequestUrl.KeepParam | source/Core/Request.php:96-97 | a delimiter followed by another parameter is kept along with that parameter |
| RequestUrl.NameLengthIsLocal | source/Core/Request.php:96-97 | whether a name matches depends only on the text up to its first `=` |
| RequestUrl.KeepChain | source/Core/Request.php:96-97 | a chain of `&`-led parameters other than the two survives either replacement in full |
| RequestUrl.KeptQuery | source/Core/Request.php:96-97 | a query made only of other parameters comes out of the replacement unchanged |
| RequestUrl.StripsKeepPrefix | source/Core/Request.php:93-97 | the replacements leave the `index.php` prefix alone and keep the query's leading `?` |
| RequestUrl.FormattedUrlShape | source/Core/Request.php:93-99 | the formatted URL starts with `index.php?` and has every `&` written as `&amp;` |
| RequestUrl.DropTrailingOfLonger | source/Core/Request.php:98 | the trailing-`&` removal touches only the query part |
| RequestUrl.EscapedAmpersands | source/Core/Request.php:99 | after `&` becomes `&amp;`, every `&` begins an `&amp;` |
| RequestUrl.AmpersandEscapeRoundTrip | source/Core/Request.php:99 | decoding the entities of the `&amp;`-escaped URL gives the URL back |
| RequestUrl.ChainEscaping | source/Core/Request.php:99 | a chain of `&`-free parameters is written with `&amp;` between them |
| RequestUrl.SessionIdFirst | source/Core/Request.php:96 | a session id first in the query is dropped with its `&`; the `?` is followed by the next parameter |
| RequestUrl.SessionIdInMiddle | source/Core/Request.php:96 | a session id between two parameters is dropped with the `&` after it |
| RequestUrl.SessionIdLast | source/Core/Request.php:96 | a session id last in the query is dropped, leaving its leading `&` behind for the `/&$/` step |
| RequestUrl.AdjacentSessionIdSurvives | source/Core/Request.php:96 | matches do not overlap: of two adjacent session ids the second keeps its place, because the first match consumed its delimiter |
| RequestUrlExamples.FirstQuestionMark | source/Core/Request.php:90-93 | after a path without `?`, the query part starts at the path's length |
| RequestUrlExamples.GetQuery | source/Core/Request.php:83-93 | a GET request takes the query part from REQUEST_URI or, when that is unset, from SCRIPT_URI |
| RequestUrlExamples.FormatOfStripped | source/Core/Request.php:93-99 | a query left as plain parameters, with or without a trailing `&`, is written as `index.php?` and the parameters joined by `&amp;` |
| RequestUrlExamples.TokenPassKeeps | source/Core/Request.php:97 | the form-token pass keeps a query of other parameters |
| RequestUrlExamples.PlainQueryVector | tests/Unit/Core/RequestTest.php:78-84 | `test.php?param1=value1&param2=value2` gives `index.php?param1=value1&amp;param2=value2` |
| RequestUrlExamples.NoQueryVector | tests/Unit/Core/RequestTest.php:89-95 | a URI without `?` gives the empty string |
| RequestUrlExamples.ScriptUriVector | tests/Unit/Core/RequestTest.php:100-106 | with REQUEST_URI unset, SCRIPT_URI `/shop/?cl=details` gives `index.php?cl=details` |
| RequestUrlExamples.SessionIdInMiddleCase | source/Core/Request.php:90-99 | a URI with a session id between parameters is written without it |
| RequestUrlExamples.SessionIdFirstCase | source/Core/Request.php:90-99 | a URI with a session id as first parameter is written without it |
| RequestUrlExamples.SessionIdLastCase | source/Core/Request.php:90-99 | a URI with a session id as last parameter is written without it and without a trailing `&amp;` |
| RequestUrlExamples.SessionIdVectors | tests/Unit/Core/RequestTest.php:111-122 | the three URIs of the session id test give `index.php?param1=value1&amp;sysid=vvv&amp;param2=ttt` |
| SpecialCharsExamples.StringTestVector | tests/Unit/Core/RequestTest.php:169-172 | `&\o<x>i"'d` followed by NUL escapes to `&amp;&#092;o&lt;x&gt;i&quot;&#039;d` |
| SpecialCharsExamples.CrLfTestVector | tests/Unit/Core/RequestTest.php:127-135 | `text` CR LF escapes to `text&#13;&#10;`, in that order |
| SpecialCharsExamples.LfCrTestVector | tests/Unit/Core/RequestTest.php:127-135 | `text` LF CR escapes to `text&#10;&#13;`, in that order |
| SpecialCharsExamples.ArrayLineBreakTestVector | tests/Unit/Core/RequestTest.php:150-153 | a one-element list has its element escaped under the same key |
| SpecialCharsExamples.ArrayKeyTestVector | tests/Unit/Core/RequestTest.php:197-201 | `['asd&' => 'a%&']` escapes to `['asd&amp;' => 'a%&amp;']`: keys as well as values |
| SpecialCharsExamples.RawListTestVector | tests/Unit/Core/RequestTest.php:184-196 | with raw list `first`, `third`, only `second` is escaped, and the order is kept |
| SpecialCharsExamples.RawKeyKeepsSubtree | source/Core/Request.php:144-151 | an entry under a raw key is kept whole, nested arrays included |
| SpecialCharsExamples.RawListIsNotInherited | source/Core/Request.php:145-146 | the nested call gets no raw list, so a raw key applies only at the top level |
| SpecialCharsExamples.EscapeCollidingEntries | source/Core/Request.php:151 | when two keys escape to the same key, the later entry overwrites the earlier one in its place |
| SpecialCharsExamples.CollidingKeysOverwrite | source/Core/Request.php:151 | `a` NUL and `a` collide once NUL is removed, and the later value wins at the first position |
| SpecialCharsExamples.EscapeThreeEntries | source/Core/Request.php:140-153 | an array whose escaped keys stay distinct is escaped entry by entry, in order |
| SpecialCharsExamples.EscapeIsNotIdempotent | source/Core/Request.php:155-159 | escaping twice turns `&` into `&amp;amp;`, not `&amp;` |
| ReviewStore.FirstMatch | source/Internal/Service/UserService.php:175-180 | `getOne` returns the id of a rating row with the key, or none exactly when no row has it |
| ReviewStore.FirstMatchIsFirst | source/Internal/Service/UserService.php:175-180 | the row returned is the first row with the key |
| ReviewStore.WithoutRating | source/Internal/Service/UserService.php:143 | deleting the loaded rating removes every row with its id and keeps every other row |
| ReviewStore.WithoutAbsentRating | source/Internal/Service/UserService.php:143 | deleting an id no row has changes nothing |
| ReviewStore.Start | source/Internal/Service/UserService.php:80 | `startTransaction` logs the call; on success it saves a snapshot of the store; on failure it reports the exception class |
| ReviewStore.Commit | source/Internal/Service/UserService.php:85 | `commitTransaction` keeps the store and closes the transaction, unless it throws |
| ReviewStore.Rollback | source/Internal/Service/UserService.php:87 | `rollbackTransaction` restores the snapshot and closes the transaction |
| ReviewStore.Lookup | source/Internal/Service/UserService.php:175-180 | the query logs the call and returns the first matching row, unless it throws |
| ReviewStore.DeleteRating | source/Internal/Service/UserService.php:143 | the rating delete removes the rows with the id, unless it throws |
| ReviewStore.DeleteReview | source/Internal/Service/UserService.php:83 | the review delete removes the review id, unless it throws |
| ReviewStore.UntilFault | source/Internal/Service/UserService.php:80-89 | the calls made before a throw stops the run: a prefix of the plan; either the whole plan with no call throwing, or ending at the first call that throws |
| ReviewStore.UntilFaultCons | source/Internal/Service/UserService.php:80-89 | a throwing first call ends the run; otherwise the run goes on with the rest |
| ReviewStore.Database.constructor | source/Internal/Service/UserService.php:43-51 | a database over a store, with no transaction open and an empty log |
| ReviewStore.Database.StartTransaction | source/Internal/Service/UserService.php:80 | the new state is the `Start` transition of the old one |
| ReviewStore.Database.CommitTransaction | source/Internal/Service/UserService.php:85 | the new state is the `Commit` transition |
| ReviewStore.Database.RollbackTransaction | source/Internal/Service/UserService.php:87 | the new state is the `Rollback` transition |
| ReviewStore.Database.GetOne | source/Internal/Service/UserService.php:175-180 | the new state and the result are the `Lookup` transition |
| ReviewStore.Database.DeleteRatingRow | source/Internal/Service/UserService.php:143 | the new state is the `DeleteRating` transition |
| ReviewStore.Database.DeleteReviewRow | source/Internal/Service/UserService.php:83 | the new state is the `DeleteReview` transition |
| Service.RatingKeyOf | source/Internal/Service/UserService.php:162-180 | the rating looked up is the review's object, the acting user, the service's shop and type `oxarticle` |
| Service.DeletedStore | source/Internal/Service/UserService.php:82-83 | after a deletion the review is gone; the rows of its rating are gone when it had one, and nothing else changed |
| Service.UserService.constructor | source/Internal/Service/UserService.php:43-51 | user, database and shop id are set once; they are constants of the class |
| Service.UserService.IsCurrentUserReview | source/Internal/Service/UserService.php:108-113 | a definition: the review's user id is identical to the acting user's |
| Service.UserService.IsArticleReview | source/Internal/Service/UserService.php:131-134 | a definition: the object type is `oxarticle` |
| Service.UserService.HasArticleReviewRating | source/Internal/Service/UserService.php:151-154 | a definition: the rating is positive |
| Service.UserService.ValidateUserPermissionToDeleteReview | source/Internal/Service/UserService.php:96-113 | passes exactly when the review's user id is identical (`===`, type included) to the acting user's; otherwise the permission error with its message |
| Service.UserService.ValidateArticleReview | source/Internal/Service/UserService.php:119-134 | passes exactly when the object type is `oxarticle`; otherwise the type error with its message |
| Service.UserService.GetArticleReviewRating | source/Internal/Service/UserService.php:160-186 | performs the `getOne` on the review's rating key |
| Service.UserService.DeleteArticleReviewRating | source/Internal/Service/UserService.php:139-154 | only a review with a positive rating looks its rating up, and deletes the row found |
| Service.UserService.DeleteArticleReview | source/Internal/Service/UserService.php:75-90 | the result and the new database state are exactly the `Deletion` specification |
| Service.RatingDeletion | source/Internal/Service/UserService.php:139-154 | an unrated review touches nothing; the rating step never changes the reviews or the saved snapshot; a throwing step leaves the store as it was |
| Service.TransactionBody | source/Internal/Service/UserService.php:81-85 | a definition of the calls inside the `try` block; BodyFollowsPlan, BodyFailure and BodySuccess state their effect |
| Service.Deletion | source/Internal/Service/UserService.php:75-90 | a definition of `deleteArticleReview`; DeletionError, DeletionIsAtomic, DeletionLog and DeletionSucceedsIff state what it does |
| Service.BodyFollowsPlan | source/Internal/Service/UserService.php:81-85 | the transaction body makes the planned calls up to the first that throws, and succeeds exactly when none does |
| Service.BodyFailure | source/Internal/Service/UserService.php:81-88 | a failing body reports the class of the injected exception |
| Service.BodySuccess | source/Internal/Service/UserService.php:81-85 | a completed body leaves the deleted store and no open transaction |
| Service.RejectionChangesNothing | source/Internal/Service/UserService.php:77-78 | a foreign or non-article review is refused before the database is touched: the call fails, no call is made and nothing changes |
| Service.DeletionError | source/Internal/Service/UserService.php:77-89 | a foreign review fails with the permission error, even when it is no article review; an own review of anything but an article fails with the type error; in both the state is unchanged; any other failure is a rethrown storage exception of the injected class |
| Service.DeletionSucceedsIff | source/Internal/Service/UserService.php:80-89 | an own article review's deletion succeeds exactly when no planned call throws |
| Service.NoFaultSucceeds | source/Internal/Service/UserService.php:75-90 | without a storage failure, deleting an own article review succeeds |
| Service.DeletionLog | source/Internal/Service/UserService.php:80-89 | the calls made are the plan up to the throwing call, followed by one rollback when it threw after the start |
| Service.DeletionIsAtomic | source/Internal/Service/UserService.php:80-89 | afterwards no transaction is open, and the store is either the deleted store (success) or exactly the old store (any failure) |
| Service.PlanShape | source/Internal/Service/UserService.php:80-85 | the plan starts the transaction and ends with its only commit, with no rollback |
| Service.CompletedRunCloses | source/Internal/Service/UserService.php:80-85 | a run without a throw ends with the commit and makes no rollback |
| Service.FailedRunRollsBackOnce | source/Internal/Service/UserService.php:86-88 | a run cut by a throw after the start ends with its one rollback |
| Service.CommitOnlyIfThrown | source/Internal/Service/UserService.php:85-87 | in a failed run, a commit call was made only when the commit itself threw |
| Service.DeletionClosesOnce | source/Internal/Service/UserService.php:80-89 | once the transaction has started it is closed once: a success ends with the commit and makes no rollback; a failure ends with its only rollback |
| Service.UnratedReviewDeletion | source/Internal/Service/UserService.php:82-85 | an unrated review is deleted by start, one review delete and the commit, with no rating lookup |
| Service.RatedReviewDeletion | source/Internal/Service/UserService.php:82-85 | a rated review: start, the lookup of its rating key, that rating's delete, then the review's delete, then the commit |
| Service.ForeignReviewVector | tests/Unit/Core/Internal/Service/UserServiceTest.php:19-45 | user 1 deleting a review of user 2 gets the permission error, and the database is untouched |
| Service.NotArticleReviewVector | tests/Unit/Core/Internal/Service/UserServiceTest.php:50-75 | an own review of type `notAnArticle` gets the type error, and the database is untouched |
| Service.UnratedReviewVector | tests/Unit/Core/Internal/Service/UserServiceTest.php:77-110 | an own unrated article review is deleted once, and the transaction committed |
| AccountReview.PagesCount | source/Application/Controller/AccountReviewController.php:146-149 | `ceil(count / perPage)`: the pages cover every item and the last page is not empty |
| AccountReview.PagesCountIsLeast | source/Application/Controller/AccountReviewController.php:146-149 | no smaller number of pages covers all items |
| AccountReview.NoPagesIffNoItems | source/Application/Controller/AccountReviewController.php:146-149 | there are no pages exactly when there are no items |
| AccountReview.ReviewListWindow | source/Application/Controller/AccountReviewController.php:43-52 | the list is asked for 10 items; page 0 starts at offset 0, and each later page 10 further on |
| AccountReview.WindowStartsInsideList | source/Application/Controller/AccountReviewController.php:43-52 | the window of every existing page starts at an item that is there |
| AccountReview.WindowsTile | source/Application/Controller/AccountReviewController.php:43-52 | consecutive windows neither overlap nor leave a gap |
| AccountReview.NatToString | source/Application/Controller/AccountReviewController.php:125 | a page number is written in decimal, with no leading zero |
| AccountReview.ParseNatToString | source/Application/Controller/AccountReviewController.php:125 | reading the written page number back gives the number |
| AccountReview.ClampedPage | source/Application/Controller/AccountReviewController.php:118-123 | with no items the page is −1; otherwise it lies in the pages range; a page in range is kept, and a page past the end becomes the last page |
| AccountReview.ArticleReviewListUrlPath | source/Application/Controller/AccountReviewController.php:116-126 | the bare path exactly when the page asked for is 0 or there is at most one page; otherwise `?pgNr=` and the clamped page, which is the page asked for or the last page when past the end |
| AccountReview.EmittedPageInRange | source/Application/Controller/AccountReviewController.php:118-125 | a page number in the path is at least 1 and less than the pages count |
| AccountReview.PastTheEndVector | source/Application/Controller/AccountReviewController.php:118-125 | 20 items with page 2 asked for give `account_reviewlist?pgNr=1` |
| AccountReview.EmptyListVector | source/Application/Controller/AccountReviewController.php:118-125 | with no items the page clamps to −1 and the bare path results |
| AccountReview.DeleteAndRedirect | source/Application/Controller/AccountReviewController.php:59-69 | a definition of `deleteArticleReviewAndRating`; ChallengeGuardsDeletion, DeleteAndRedirectFailsIff and RedirectAfterDeletion state what it does |
| AccountReview.ChallengeGuardsDeletion | source/Application/Controller/AccountReviewController.php:59-69 | a failed session challenge deletes nothing and still returns the list path |
| AccountReview.DeleteAndRedirectFailsIff | source/Application/Controller/AccountReviewController.php:59-69 | the request fails exactly when the challenge passes and the deletion throws, and then with the deletion's error |
| AccountReview.RedirectAfterDeletion | source/Application/Controller/AccountReviewController.php:59-69 | after a successful deletion the path is computed from the count of the store without the review |
| AccountReview.AccountReviewController.constructor | source/Application/Controller/AccountReviewController.php:20-22 | a controller with no pages counted yet |
| AccountReview.AccountReviewController.GetPageNavigation | source/Application/Controller/AccountReviewController.php:95-101 | `_iCntPages` now holds the pages count |
| AccountReview.AccountReviewController.GetArticleReviewList | source/Application/Controller/AccountReviewController.php:43-52 | the count and offset passed to the service are the page's window |
| AccountReview.AccountReviewController.DeleteArticleReviewAndRating | source/Application/Controller/AccountReviewController.php:59-69 | the result and the new database state are the `DeleteAndRedirect` specification |

## Left out

- PHP's loose `in_array` comparison on the raw list (an integer key `0` equals any non-numeric string) is not modelled. Keys are strings and compared exactly. A missing raw list (`null`) and an empty one are the same empty sequence.
- The `unset` of an escaped key on the input copy (source/Core/Request.php:148) is not modelled. It only touches a local copy that is overwritten after the loop, so it has no effect.
- Floats are carried as exact reals. `replaceSpecialChars` only passes them through, so PHP's floating-point arithmetic and its float-to-string conversion are not modelled.
- `getStr()` multibyte string handling is not modelled. Strings are sequences of characters, and offsets count characters.
- `$_POST`, `$_GET`, `$_SERVER`, `Registry::getConfig()->isAdmin()`, the session's `blIsAdmin` variable and `checkSessionChallenge()` are not read. They are passed in as parameters or booleans.
- RequestUrl.GetRequestUrl: the `$sParams` and `$blReturnUrl` arguments are unused by the source and not modelled.
- RequestUrl.RemoveParam: the `preg_replace` patterns are written out as scanners over the text. They follow PCRE's leftmost, non-overlapping, left-to-right matching for these two patterns, not a general regular-expression engine.
- AccountReview.PagesCount: PHP's `ceil` on a float division is modelled as integer ceiling division. Page numbers are integers, and the float-to-string conversion of `ceil`'s result is not modelled.
- `getActPage()` is not modelled; the current page is a natural-number parameter.
- `getArticleReviewItemsCnt` and UserCounter.php are not part of this model. The review count after a deletion is a parameter, `countReviews`, applied to the store.
- `getArticleReviews` and `Review::getProductReviewsByUserId` are not part of this model. Only the count and offset passed to them are stated.
- `init` with its redirect and `exit`, breadcrumbs, translation, SEO URL building and the template's page navigation object (`_oPageNavigation`) are not modelled. They are display code and unseen collaborators.
- `getReviewFromRequest` is not modelled, nor is the loading of a review or a rating by id. The controller receives the review itself.
- Service.RatingDeletion: when `getOne` finds no row, no rating-delete call is modelled, although the source calls `$rating->delete()` on the unloaded Rating (source/Internal/Service/UserService.php:143). An unloaded model's delete is taken not to reach the database, so no call is logged there and a fault planned for the rating delete cannot fire.
- `getOne` returns the first matching rating row in storage order. The store is a sequence of rows, so that order is explicit.
- Real database transactions are not modelled: isolation, concurrency and nested transactions. `startTransaction` inside an open transaction keeps the outer snapshot, and `rollbackTransaction` does not throw.
- `throw new $exception` builds a fresh exception of the same class with no message. The model keeps only the class name of a storage exception.
- The two exception classes and UserServiceInterface.php are not part of this model. The errors are the variants of the `Error` datatype.
- The unit-test URIs are written as concatenations of their parameters (`"test.php" + "?" + "param1=value1" + …`). Each sequence literal is the same string as the test's.
