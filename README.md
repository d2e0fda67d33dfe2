# Omi repository core, modelled in Dafny

Omi is a small versioning datastore. A repository is one SQLite file
(`name.omi`) with four tables:

- `blobs`: file contents keyed by their SHA-256 hex digest;
- `commits`: a table that only grows;
- `files`: rows tagged with a commit id; the latest commit is the one
  with the largest id. A commit written by either server holds one row per
  path of the whole tree, because the server copies the previous commit's
  rows forward. The clients do not:
  - a commit of the C client (`CliClient`) or the Python client
    (`PyClient`) holds only the rows staged since the last commit, so a
    server browsing such a repository shows only those files;
  - the C client's staging table is append-only, so one commit can hold
    the same path twice;
  - the C# client (`CsClient`) keeps its own schema, whose `files` table
    has one row per path and no commit id (omi.cs:84-88);
- `staging`: rows waiting for the next commit (used by the clients).

Two web servers share the same repository format: `public/index.php` and
`public/server.js`. They browse a repository and change it through form
actions: delete, rename, create a directory, create a file, and upload.
Three command-line clients keep a local repository with a staging area:
`cli/omi.c`, which carries its own SHA-256; `omi.cs`; and `omi.py`.

The project models:

- the shared tables and the write statements the servers issue: module
  `RepoTables`, class `RepoDb`;
- the PHP writes, which run statement by statement in autocommit mode, so
  a failure part-way leaves a partial commit: `PhpStore`;
- the Node writes, which run as one all-or-nothing script built from
  rows read beforehand: `JsStore`;
- the name gates: repository names, form-field cleaning, the request-path
  parser and the SQL string escape: `RepoNames`, `PhpGate`, `JsGate`;
- the listing: latest rows under a path, `organizeFiles`, the single-file
  test, the text test and the history pages: `Listing`, `Organize`;
- the form actions of both servers: `PhpActions`, `JsActions`;
- the C client's SHA-256, proved against a FIPS 180-4 reference: classes
  `CliSha256.Sha256Ctx` and module `Fips180`;
- the three clients' add and commit: `CliClient`, `CsClient`, `PyClient`.

Things outside the model are parameters:

- the content hash is a parameter `hashOf` in the server modules; the
  clients use `Fips180.HexDigest`;
- clocks, the signed-in user, the file system and the engine's failures
  (`failAt`, `fault`, and the C client's `AddSteps` and `CommitSteps`)
  are parameters too.

## Model

| member | source | states |
|---|---|---|
| RepoNames.WithOmiExtension | public/index.php:419-421 | the result ends in `.omi` and starts with the name; a name already ending in `.omi` is kept unchanged |
| RepoNames.WithOmiExtensionAllowed | public/server.js:348-353 | appending the extension keeps a name inside the allow-list `[a-zA-Z0-9._-]` |
| RepoNames.PatternOnAllowed | public/server.js:396-398 | over a non-empty allowed name, `^[a-zA-Z0-9._-]+\.omi$` fails after the extension is added exactly when the name is the bare `.omi` |
| RepoNames.AllowedExcludesSeparators | public/index.php:376 | an allow-listed name holds no `/`, `\`, NUL or newline |
| PhpGate.SanitizeRepoName | public/index.php:370-378 | the sanitized name is in the allow-list and holds no separator and no NUL |
| PhpGate.SanitizeIdempotent | public/index.php:370-378 | sanitizing a sanitized name changes nothing |
| PhpGate.BackslashZeroRemoved | public/index.php:372 | the single-quoted `'\0'` removes the text backslash-zero: `a\0b` becomes `ab` |
| PhpGate.NameKept | public/index.php:370-378 | a name that the strip step maps to a plain allowed name with no `/` comes out as that name |
| PhpGate.TraversalReduced | public/index.php:370-378 | `../../dir/file` is not refused but reduced to `file` |
| PhpGate.TraversalStripped | public/index.php:372 | both leading `../` are removed, and a rest with no dot and no backslash is kept |
| PhpGate.CreateRepositoryName | public/index.php:413-431 | an accepted name is absent from the directory and matches the repository pattern |
| PhpGate.PhpPatternOnAllowed | public/index.php:422 | under PCRE, where `$` also matches before a final newline, the pattern still refuses exactly the bare `.omi`, because a sanitized name has no newline |
| PhpGate.CreateRepositoryNameSpec | public/index.php:413-431 | each outcome, in both directions: "required" exactly when nothing survives sanitizing; "invalid" exactly when only `.omi` survives; "exists" exactly when the completed name is present; otherwise Ok with the name plus `.omi` |
| PhpGate.NameChecksSpec | public/index.php:415-431 | on a sanitized name the checks refuse an empty name, then the bare `.omi`, then a name already present, each in both directions |
| PhpGate.ReplaceSeparators | public/index.php:1999 | after the chained `str_replace` no `/` and no `\` remains |
| PhpGate.FormName | public/index.php:1998-1999 | a cleaned form field holds no `/` and no `\` |
| PhpGate.UploadName | public/index.php:2082-2084 | a cleaned upload name holds no `/` and no `\` |
| PhpGate.FormNameAddsOneSegment | public/index.php:2000 | a cleaned name adds exactly one path segment under the browsed directory |
| JsGate.SanitizeRepoName | public/server.js:307-312 | the sanitized name is in the allow-list and holds no separator and no NUL |
| JsGate.SanitizeIdempotent | public/server.js:307-312 | sanitizing a sanitized name changes nothing |
| JsGate.BackslashZeroKeepsDigit | public/server.js:308-311 | unlike the PHP gate, `a\0b` becomes `a0b`: the regex removes NUL, not the text backslash-zero |
| JsGate.NormalizeRepoName | public/server.js:348-353 | empty exactly when sanitizing leaves nothing; otherwise an allowed name ending in `.omi` that starts with the sanitized name |
| JsGate.CreateRepositoryName | public/server.js:391-403 | an accepted name is absent from the directory and matches the repository pattern |
| JsGate.CreateRepositoryNameSpec | public/server.js:391-403 | each outcome in both directions, as for the PHP gate |
| Gates.GatesAgree | public/server.js:391-403 | on every input that the two sanitizers map to the same name, the Node checks give the same outcome as the PHP checks of public/index.php:413-431 |
| JsGate.SlashesToUnderscore | public/server.js:621 | each `/` or `\` becomes `_` and every other character stays in place |
| JsGate.SanitizePathSegment | public/server.js:620-622 | the result holds no separator and no NUL, and is trimmed at both ends |
| JsGate.SanitizeAll | public/server.js:632 | segment-by-segment cleaning of the path parts |
| JsGate.NoPartsIffSlashes | public/server.js:625-627 | a request path has no non-empty part exactly when it is made only of slashes |
| JsGate.ParseRequestPathSpec | public/server.js:624-653 | the repository list exactly for all-slash paths; every error is "Repository not found"; a browse route names an available allow-listed `.omi` repository, and its path splits back into the cleaned, non-empty parts, none holding a backslash or a NUL |
| JsGate.BrowsePathSplits | public/server.js:632-652 | joining the cleaned non-empty segments with `/` and splitting again gives the segments back |
| JsGate.UnescapeRoundTrip | public/server.js:424-426 | undoing the quote doubling gives back the value |
| JsGate.EscapedLiteralReadsBack | public/server.js:424-426 | an escaped value between quotes reads back, under SQLite's literal rule, as exactly the value, and the literal closes at the closing quote, so a value cannot inject SQL |
| RepoTables.Head | public/index.php:505-506 | no latest commit exactly when there are no commits; otherwise the largest id |
| RepoTables.Apply | public/index.php:438 | a statement fails only when it inserts a blob whose hash is already the primary key |
| RepoTables.Created | public/index.php:437-452 | a new repository has one commit, "Initial commit", no blob and no row; it is well formed and consistent for every hash function |
| RepoTables.RunConcat | public/index.php:801-855 | running two scripts in turn is running their concatenation |
| RepoTables.RunReinsert | public/server.js:547-565 | copying rows, by explicit id or by the latest-id subquery, appends them stamped with the latest id and changes nothing else |
| RepoTables.RunCommit | public/index.php:829-847 | a commit insert followed by copies under its id files exactly those rows under the new commit |
| RepoTables.FiledRows | public/index.php:829-847 | the new commit holds exactly the rows written and is the latest; every other commit keeps its rows; every row still names an existing commit |
| RepoTables.FiledHead | public/index.php:825-847 | the latest tree after filing rows under a new commit is exactly those rows |
| RepoTables.WithoutMembers | public/index.php:838 | `filename != ?` keeps exactly the rows with another name |
| RepoTables.HeadRowsStored | public/index.php:587-600 | in consistent tables every row of the latest commit names a stored blob |
| RepoTables.WithBlobConsistent | public/index.php:811-819 | storing bytes under their own hash keeps every blob under its hash |
| RepoTables.FiledConsistent | public/index.php:835-847 | a commit whose rows all name stored blobs keeps the tables consistent |
| RepoTables.RunFails | public/server.js:569-574 | once a prefix of a script fails, the whole script fails |
| RepoTables.RepoDb.constructor | public/index.php:437-445 | a freshly created database holds three empty tables |
| RepoTables.RepoDb.LatestCommitId | public/index.php:825-826 | the latest commit id of the current tables |
| RepoTables.RepoDb.BlobCount | public/index.php:811-813 | zero exactly when no blob has the hash, and never more than one |
| RepoTables.RepoDb.BlobData | public/index.php:587-600 | the stored bytes exactly when a blob has the hash |
| RepoTables.RepoDb.SelectRows | public/index.php:836-838 | an entry is read exactly when it is stored with commit id `id` and its name is not `except`; the rows come in table order |
| RepoTables.RowsOfMembers | public/index.php:515-518 | `WHERE commit_id = ?` gives exactly the entries stored with that commit id |
| RepoTables.RepoDb.Exec | public/index.php:801-855 | one autocommit statement: it succeeds exactly when no fault hits and it obeys the key, and the tables change only then |
| RepoTables.RepoDb.RunScript | public/server.js:569-574 | a `BEGIN; ... COMMIT;` script applies every statement or none |
| PhpStore.CommitFile | public/index.php:801-855 | true exactly when every planned statement ran; the tables are those after the statements before the failing one |
| PhpStore.UploadFile | public/index.php:858-912 | the same as `commitFile` with the verb "Uploaded: " |
| PhpStore.WriteFile | public/index.php:811-847 | the statement-by-statement write against its plan: blob check, commit insert, carried copies, new row |
| PhpStore.WriteTail | public/index.php:825-847 | after the blob check, the commit, the carried rows and the new row run in order under the new id |
| PhpStore.WritePlanShape | public/index.php:811-847 | the write plan is the blob insert when the hash is new, the commit insert, one copy per carried row under the new id, then the new row |
| PhpStore.SelectCarried | public/index.php:835-838 | the rows read are the latest commit's rows minus the target's |
| PhpStore.CarryRows | public/index.php:839-843 | the carry loop re-inserts every row read under the new id, or stops at the failing statement |
| PhpStore.DeleteFile | public/index.php:915-953 | true exactly when every planned statement ran; otherwise the statements before the failure stay applied |
| PhpStore.DeleteTail | public/index.php:933-947 | after the commit insert, the carried rows run in order under the new id |
| PhpStore.DeletePlanShape | public/index.php:924-947 | the delete plan is the commit insert "Deleted: " plus the name, then one copy per carried row under the new id |
| PhpStore.WriteOutcome | public/index.php:811-847 | a complete write stores the blob if its hash is new and adds one commit holding the carried rows and the new row |
| PhpStore.DeleteOutcome | public/index.php:924-947 | a complete delete adds one commit holding the carried rows |
| PhpStore.WriteHead | public/index.php:801-855 | the new latest tree is the old one minus every row for the path, plus one row with the content's hash; the blob is stored only if new and no existing blob is rewritten; earlier commits keep their rows |
| PhpStore.DeleteHead | public/index.php:915-953 | the new latest tree is the old one minus the path; blobs and earlier commits are unchanged |
| PhpStore.WriteKeepsConsistent | public/index.php:801-855 | a write keeps every blob under its hash and every row pointing at a stored blob |
| PhpStore.DeleteKeepsConsistent | public/index.php:915-953 | a delete keeps the tables consistent |
| PhpStore.PartialWrite | public/index.php:829-847 | there is no transaction: a write that fails after the commit insert and j copies leaves a latest commit that holds only those j rows |
| PhpStore.PartialWriteRun | public/index.php:829-843 | the tables after that partial run: the blob, the new commit and the first j copies |
| JsStore.CommitUser | public/server.js:571 | `username \|\| 'system'` is never empty and is the user when one is signed in |
| JsStore.ReadCarried | public/server.js:543-555 | the two reads give the latest commit's rows minus the target's, or nothing before the first commit |
| JsStore.PreserveStatements | public/server.js:557-567 | one insert by the latest-id subquery per row read, in order |
| JsStore.CommitFileToRepo | public/server.js:531-577 | the script runs whole or not at all, and on success the tables are those the script produces |
| JsStore.DeleteFileFromRepo | public/server.js:579-618 | the delete script runs whole or not at all |
| JsStore.CommitScriptOutcome | public/server.js:569-574 | on any tables the commit script succeeds: the blob is stored if new, and one commit holds the rows read and the new row |
| JsStore.DeleteScriptOutcome | public/server.js:612-615 | on any tables the delete script succeeds and adds one commit holding the rows read |
| JsStore.CommitHead | public/server.js:531-577 | the new tree is exactly the rows read plus the new row, whatever the tables hold when the script runs; a commit made concurrently between the reads and the script is not carried |
| JsStore.DeleteHead | public/server.js:579-618 | the new tree is exactly the rows read; blobs and earlier commits are unchanged |
| JsStore.CommitKeepsConsistent | public/server.js:531-577 | when the rows read name stored blobs, the commit keeps the tables consistent |
| JsStore.DeleteKeepsConsistent | public/server.js:579-618 | likewise for the delete |
| JsStore.CommitAgreesWithPhp | public/server.js:531-577 | with a signed-in user and no failure, the Node commit leaves the same tables as the PHP `commitFile` |
| JsStore.DeleteAgreesWithPhp | public/server.js:579-618 | with a signed-in user and no failure, the Node delete leaves the same tables as the PHP `deleteFile` |
| Listing.LatestFilesSpec | public/index.php:499-533 | both servers list rows of the latest commit only: all of them at the root, and under a path exactly those the `LIKE 'p/%' OR = 'p'` filter matches; nothing before the first commit |
| Listing.UnderMembers | public/server.js:465-468 | the filter keeps exactly the rows named `p` or matching `p/%` under SQLite's `LIKE`: `%` any run, `_` any one character, ASCII letters without regard to case |
| Listing.StartsUnder | public/index.php:520-523 | every row whose name starts with `p/`, character for character, passes the filter |
| Listing.LikeFoldsCase | public/index.php:520-523 | the filter ignores ASCII case: `Docs/a.txt` is listed under `docs`, though it does not start with `docs/` |
| Listing.CaseVariantHidesFile | public/index.php:1690 | with rows `a` and `A/x` in the latest commit, browsing `a` shows neither server a single file, because the filter returns both rows |
| Listing.FirstNamed | public/index.php:2023-2028 | a found row is in the list and has the name |
| Listing.FirstNamedSpec | public/index.php:2023-2028 | none exactly when no row has the name; otherwise the row at the first index with the name |
| Listing.FirstNamedUnder | public/index.php:2023-2028 | searching the filtered listing for a path under the filter finds the same row as searching the whole latest commit |
| Listing.FindTargetJs | public/server.js:1384 | a found row has the target path and is not a marker; none exactly when the path is a marker or no row has it |
| Listing.IsFileJsSpec | public/server.js:1491 | a browsed path is a file only when it is not a marker, the latest commit has a row with that name, and no other row passes the `LIKE` filter of the path |
| Listing.MarkerBrowsedAsFile | public/index.php:1690 | browsing a marker by its own path shows it as a file in PHP but not in Node |
| Listing.IsTextFile | public/index.php:603-612 | text exactly when the content holds no NUL byte ("" and "0" included) |
| Listing.PageNumber | public/index.php:1484 | the page is at least 1, and equals the requested page when that is at least 1 |
| Listing.TotalPages | public/index.php:1495 | the least page count whose pages hold every commit |
| Listing.PageIds | public/index.php:1497-1511 | at most 10 ids per page, all existing commits, in strictly decreasing order |
| Listing.PageOf | public/index.php:1484-1511 | every commit appears on exactly one page, page `(total - id) / 10 + 1` |
| Listing.PageNonEmpty | public/index.php:1495-1511 | a page has commits exactly when its number is at most the page count |
| Listing.PageIdsMembers | public/index.php:1497-1511 | page `page` holds exactly the commits whose page `(total - id) / 10 + 1` it is |
| Listing.LogPage | public/index.php:1497-1512 | a history page has at most 10 lines, newest commit first in strictly decreasing id order, shows exactly the commits that belong on that page, and each line carries an existing commit with the number of rows stored under it |
| Organize.OrganizeFilesPhp | public/index.php:536-584 | the loop builds the PHP listing: sub-directories by first appearance and files directly in the path |
| Organize.OrganizeFilesJs | public/server.js:485-521 | the loop builds the Node listing, whose existence test also finds inherited `Object.prototype` members |
| Organize.OrganizeFilesJsOwnKeys | public/server.js:508 | the Node loop with an own-key test builds the listing with nothing taken in advance |
| Organize.FirstByNameDistinct | public/server.js:508-514 | the kept directories have distinct names, none taken in advance, each one a candidate |
| Organize.FirstByNameComplete | public/index.php:560-570 | every candidate name that is not taken in advance is kept |
| Organize.FirstByNameFirst | public/index.php:560-570 | each kept directory is the first candidate with its name, so its datetime is the first row's |
| Organize.CandidatesMembers | public/index.php:555-570 | each candidate comes from one row below a sub-directory, and every such row gives one |
| Organize.BelowMeans | public/index.php:555-560 | a row lies below sub-directory `n` exactly when `n` is one segment and the row's name continues the directory's link with `/` |
| Organize.DirsSpec | public/index.php:536-584 | sub-directories have distinct names and a link `base/name`, and each is the record of its first row below it; every sub-directory with a row below it is listed unless its name is taken |
| Organize.ListedMembers | public/index.php:571-576 | the files are exactly the rows at or directly inside the path that are not markers |
| Organize.BelowRowListed | public/index.php:555-576 | a row below a sub-directory lists that directory unless its name is taken, and is never itself listed as a file |
| Organize.NoMarkerListed | public/server.js:490-516 | marker rows never appear among the files, under either regex engine |
| Organize.ConstructorDirLost | public/server.js:508 | in Node, a sub-directory named after an `Object.prototype` member, such as `constructor/a.txt` at the root, vanishes from the listing, while PHP lists it |
| Organize.OwnKeysComplete | public/server.js:485-521 | with the own-key test every sub-directory is listed, and the Node dirs equal the PHP dirs at every scoped path |
| PhpActions.DeleteAction | public/index.php:1997-2010 | an empty cleaned name is refused with no change; otherwise the delete plan runs up to the failure, and the message says whether it completed |
| PhpActions.CreateFileAction | public/index.php:2060-2076 | an empty name is refused with no change; otherwise the posted content is written under the cleaned name |
| PhpActions.CreateDirAction | public/index.php:2043-2059 | an empty name is refused with no change; otherwise an empty marker `dir/.omidir` is written |
| PhpActions.UploadAction | public/index.php:2077-2121 | a nonzero error code gives its message (sizes, interruption, no file, or the code) with no change; an empty cleaned basename is refused; otherwise the upload plan runs |
| PhpActions.FindHash | public/index.php:2022-2028 | the loop finds the hash of the first row with the target path, or nothing |
| PhpActions.RenameFound | public/index.php:2033-2034 | the commit of the stored content under the new path, then only if that completed the delete of the old path; true exactly when both completed |
| PhpActions.RenameAction | public/index.php:2011-2042 | each outcome: names required, "File not found" (no row or an empty hash) with no change, or the commit-then-delete steps with a message telling whether both completed |
| PhpActions.RenameSearchesHead | public/index.php:2023-2031 | searching the filtered listing is searching the whole latest commit, so "File not found" means no row has the path |
| PhpActions.RenameHead | public/index.php:2033-2034 | a completed rename to another path makes two commits: the new path holds the old hash, the old path is gone, every other path stays |
| PhpActions.RenameSameNameLoses | public/index.php:2034 | renaming a file to its own name deletes it |
| PhpActions.RenameFoundFixed | public/index.php:2033-2034 | the corrected rename skips the delete when the name is unchanged, and is otherwise the rename as written |
| PhpActions.RenameFixedHead | public/index.php:2033-2034 | with that correction a completed rename always leaves the new path holding the old hash, and the old path is gone when it differs |
| PhpActions.CreateDirListed | public/index.php:2043-2055 | after `create_dir` the new directory appears in the listing of the browsed directory, and its marker is not listed as a file |
| PhpActions.MarkerPathShape | public/index.php:2050-2051 | the marker ends in `/.omidir` and lies below the new directory, inside the browsed one |
| JsActions.DeleteAction | public/server.js:1375-1396 | an empty name is refused, "File not found" for a missing or marker row, and a fault is reported; all three leave the tables unchanged; otherwise the delete script of the found row runs |
| JsActions.RenameFound | public/server.js:1413-1416 | the commit of the stored content under the new path, then, if that went through, the delete of the old row |
| JsActions.RenameAction | public/server.js:1397-1422 | each outcome: names required, "File not found" with no change, or the two scripts with the message saying whether both completed |
| JsActions.CreateDirAction | public/server.js:1423-1438 | an empty name or a fault leaves the tables unchanged; otherwise the marker commit script runs |
| JsActions.CreateFileAction | public/server.js:1439-1454 | an empty name or a fault leaves the tables unchanged; otherwise the content is committed under the cleaned name |
| JsActions.UploadAction | public/server.js:1455-1470 | an empty name is refused with no change; an empty upload is still stored, since a Buffer is truthy; otherwise the upload commit script runs |
| JsActions.RenameFoundFixed | public/server.js:1413-1416 | the corrected rename skips the delete when the path is unchanged |
| JsActions.RenameCommitted | public/server.js:1413-1414 | after the commit step the new tree is the carried rows plus the new path holding the old hash |
| JsActions.RenameHead | public/server.js:1413-1416 | a rename to another path that goes through makes two commits: the new path holds the old hash, the old path is gone, every other path stays |
| JsActions.RenameSameNameLoses | public/server.js:1414-1416 | renaming a file to its own name deletes it, while the page reports the rename as done |
| JsActions.RenameFixedHead | public/server.js:1413-1416 | with the correction, a rename that goes through leaves the new path holding the old hash, and the old path is gone when it differs |
| JsActions.CreateDirListed | public/server.js:1423-1433 | after `create_dir` the directory is listed exactly when its name is not one `Object.prototype` answers for, and its marker is never listed as a file |
| JsActions.MarkerPathShape | public/server.js:1429-1430 | the marker ends in `/.omidir` and lies below the new directory, inside the browsed one |
| Fips180.ScheduleUpTo | cli/omi.c:186-192 | the message schedule has n words |
| Fips180.Compress | cli/omi.c:183-224 | one compression maps eight words to eight words |
| Fips180.HashBlocksAppend | cli/omi.c:240-254 | processing one more block is one more compression |
| Fips180.ZeroCount | cli/omi.c:261-266 | the zero count brings the message plus 0x80 to 56 modulo 64 |
| Fips180.PadShape | cli/omi.c:256-282 | the padded message is whole blocks, at most one block longer than needed; it starts with the message and 0x80, then zeros |
| Fips180.PadParts | cli/omi.c:271-282 | the padding is its head blocks plus a last block that closes with the 64-bit length |
| Fips180.Digest | cli/omi.c:256-295 | the digest is 32 bytes |
| Fips180.HexDigest | cli/omi.c:297-314 | the hex digest is 64 lowercase hex digits |
| Bytes.HexDigitsTable | cli/omi.c:301 | the digit table gives the same digit as the arithmetic definition |
| Bytes.LowerHexShape | cli/omi.c:309-312 | two lowercase digits per byte, byte i at places 2i and 2i+1 |
| Bytes.HexRoundTrip | omi.cs:490-500 | decoding the hex text of any byte string gives the bytes back |
| Bytes.HexPairRoundTrip | omi.cs:497 | each byte's two digits decode to that byte |
| CliSha256.Sha256Ctx.constructor | cli/omi.c:226-238 | the new context is valid and has absorbed nothing |
| CliSha256.Sha256Ctx.MessageSchedule | cli/omi.c:186-192 | the two schedule loops compute the reference schedule of the buffered block |
| CliSha256.Sha256Ctx.Transform | cli/omi.c:183-224 | the state becomes the reference compression of the old state with the buffered block |
| CliSha256.Sha256Ctx.CompressBlock | cli/omi.c:246 | compressing the full buffer extends the hashed prefix by one block |
| CliSha256.Sha256Ctx.Buffer | cli/omi.c:243-244 | one byte is buffered and absorbed |
| CliSha256.Sha256Ctx.CountBlock | cli/omi.c:247-250 | the split counter advances by 512 bits modulo 2^64, the carry crossing into the high half |
| CliSha256.Sha256Ctx.Flush | cli/omi.c:245-252 | a full buffer is compressed and counted, and the context is valid again |
| CliSha256.Sha256Ctx.Absorb | cli/omi.c:243-252 | one pass of the update loop keeps the context valid and absorbs one byte |
| CliSha256.Sha256Ctx.Update | cli/omi.c:240-254 | the context absorbs exactly the input and stays valid |
| CliSha256.Sha256Ctx.MarkEnd | cli/omi.c:262-266 | the buffered tail, 0x80, then zeros up to the end |
| CliSha256.Sha256Ctx.PadShort | cli/omi.c:261-263 | with room for the length, the state is the hash of the head blocks and the buffer holds the last block's first 56 bytes |
| CliSha256.Sha256Ctx.PadLong | cli/omi.c:264-269 | without room, one more block is compressed and the buffer holds the last block's first 56 bytes |
| CliSha256.Sha256Ctx.ClearFront | cli/omi.c:268 | `memset(data, 0, 56)` zeroes the first 56 bytes |
| CliSha256.Sha256Ctx.WriteLength | cli/omi.c:274-281 | the last eight bytes hold the high half then the low half, big-endian |
| CliSha256.Sha256Ctx.WriteNumber | cli/omi.c:274-281 | four big-endian bytes at 56 or 60 and nothing else changed |
| CliSha256.Sha256Ctx.WriteColumn | cli/omi.c:285-294 | one pass writes byte i of each state word and nothing else |
| CliSha256.Sha256Ctx.WriteFour | cli/omi.c:286-293 | four of the eight assignments of a pass |
| CliSha256.Sha256Ctx.WriteDigest | cli/omi.c:285-294 | the first 32 bytes of the output are the state, serialized big-endian |
| CliSha256.Sha256Ctx.PadData | cli/omi.c:261-269 | after the marker and zeros, the state and buffer match the reference padding |
| CliSha256.Sha256Ctx.PadBlock | cli/omi.c:261-282 | after the padding the buffer is the reference last block |
| CliSha256.Sha256Ctx.AppendLength | cli/omi.c:271-281 | the length field is the message length in bits modulo 2^64 |
| CliSha256.Sha256Ctx.Final | cli/omi.c:256-295 | the output is the FIPS 180-4 digest of every byte absorbed |
| CliSha256.BitlenStep | cli/omi.c:247-250 | the test `bitlen[0] > 0xffffffff - 512` carries exactly when the 32-bit low half wraps |
| CliSha256.FinalLength | cli/omi.c:271-272 | `bitlen[0] + datalen * 8` never wraps, so the final count needs no carry |
| CliSha256.PadOneBlock | cli/omi.c:261-263 | with a tail shorter than 56, the padding ends inside the buffered block |
| CliSha256.PadTwoBlocks | cli/omi.c:264-268 | with a longer tail, it fills the buffered block and one block more |
| CliSha256.NibblesSpell | cli/omi.c:310-311 | indexing the digit table with both nibbles spells the byte's hex pair |
| CliSha256.WriteHex | cli/omi.c:309-313 | the 64 characters are the lowercase hex of the hash, followed by a NUL |
| CliSha256.Sha256Hex | cli/omi.c:297-314 | with fewer than 65 places nothing is written; otherwise the lowercase hex digest of the input and a NUL |
| CliSha256.Sha256 | cli/omi.c:305-307 | init, update and final give the FIPS 180-4 digest of the input |
| CliClient.BaseNameSimple | cli/omi.c:381-388 | the result is a suffix of the path that holds no `/` |
| CliClient.SkipMeans | cli/omi.c:751-756 | a path is skipped exactly when its last component contains `.omi`, so a repository file named with `.omi` (the default `repo.omi`) is skipped |
| CliClient.SkipIff | cli/omi.c:751-756 | a path is skipped exactly when its last component contains `.omi` |
| CliClient.CliDb.constructor | cli/omi.c:390-413 | a new database has four empty tables |
| CliClient.CliDb.HashText | cli/omi.c:420-429 | the 64 characters before the NUL are the FIPS 180-4 hex digest of the bytes |
| CliClient.CliDb.AddFileToDb | cli/omi.c:415-459 | fails exactly when the file cannot be read, is empty, or the database cannot be opened; otherwise reports success whatever its two statements did: the blob is stored under the client's SHA-256 unless present if the blob insert took effect, and one staging row is appended if the staging insert took effect |
| CliClient.CliDb.CommitFiles | cli/omi.c:461-509 | fails with no change exactly when the database cannot be opened; otherwise returns `sqlite3_last_insert_rowid` (one past the last id, or 0 when the commit insert did not take effect), files the staged rows the SELECT loop read and whose inserts took effect under that id, and empties staging if the delete took effect |
| CliClient.AddedSpec | cli/omi.c:436-453 | an add whose statements take effect stores the blob under the hash (an existing blob keeps its bytes) and appends exactly one staging row; the history is untouched |
| CliClient.AddTwiceDuplicates | cli/omi.c:446-453 | staging is append-only: adding a file twice stages two rows, and the next commit holds both |
| CliClient.CommittedSpec | cli/omi.c:475-503 | when every step takes effect, a commit always adds one commit, even from empty staging, whose rows are exactly the staged rows; earlier commits and blobs stay; staging is emptied |
| CliClient.CommitDropsUnstaged | cli/omi.c:485-501 | nothing is carried over: an unstaged path of the previous commit is absent, and empty staging makes an empty commit |
| CliClient.AddKeepsValid | cli/omi.c:415-459 | adds keep every blob under its hash and every staged row pointing at a stored blob |
| CliClient.CommitKeepsValid | cli/omi.c:461-509 | commits keep the database valid |
| CliClient.AddAttemptValid | cli/omi.c:436-456 | with step results ignored, an add keeps the database valid exactly when the blob insert took effect, the staging insert did not, or the blob was already stored; otherwise a staged row names no stored blob |
| CliClient.SurvivingMembers | cli/omi.c:485-499 | the rows filed are exactly those at positions whose insert took effect |
| CliClient.SurvivingAll | cli/omi.c:485-499 | when no insert fails, every row read is filed, in order |
| CliClient.LoopRowsStamp | cli/omi.c:485-499 | the insert loop writes exactly the surviving rows, in order, each under the commit id |
| CliClient.CliDb.FileStaged | cli/omi.c:485-499 | the files table gains the surviving rows under the given id, and nothing else changes |
| CliClient.AllCommitSteps | cli/omi.c:461-509 | when every step takes effect, `commit_files` files every staged row under a new commit and empties staging |
| CliClient.CommitAttemptSpec | cli/omi.c:475-504 | for any step results: blobs stay; staging is emptied exactly when the delete took effect, losing staged rows whose inserts failed; with the commit insert the new commit holds the surviving rows; without it no commit is added, every commit keeps its rows, and the surviving rows go under id 0 |
| CliClient.CommitAttemptKeepsValid | cli/omi.c:461-509 | whatever steps fail, a commit keeps the database valid |
| CsClient.Paths | omi.cs:139-148 | the staged paths in row order |
| CsClient.CsRepository.constructor | omi.cs:68-92 | a new database is empty, with no path staged twice |
| CsClient.CsRepository.ComputeSha256 | omi.cs:490-500 | the result is the lowercase hex SHA-256 of the data |
| CsClient.CsRepository.AddFile | omi.cs:94-129 | a missing file prints "File not found" with no change; otherwise the blob is stored unless present, the staged hash for the path is replaced, and "Added:" is printed |
| CsClient.CsRepository.ReadStaged | omi.cs:139-148 | the reader loop collects every staged path with its hash, in row order |
| CsClient.CsRepository.WriteFiles | omi.cs:175-185 | every staged path is written with its staged hash and the commit time, in order |
| CsClient.CsRepository.Commit | omi.cs:131-195 | empty staging prints "Nothing to commit" with no change; a short hash some commit already has makes the commit insert break the primary key (omi.cs:84), and `Main` (omi.cs:638-640) prints the error with no change; otherwise one commit with the short hash and the joined paths, the files table updated, and staging emptied; commit hashes stay distinct |
| CsClient.CommitKeepsKey | omi.cs:84 | a commit that goes through keeps the commit hashes distinct and records its own hash, so the same short hash is refused next time |
| CsClient.UnstageMembers | omi.cs:119-125 | removing a path keeps exactly the rows for other paths, and keeps paths distinct |
| CsClient.UpsertDistinct | omi.cs:119-125 | upserting keeps paths distinct, leaves one row for the path (the new one), and every other row |
| CsClient.AddTwiceKeepsLatest | omi.cs:119-125 | adding a path twice leaves one staged row with the latest hash |
| CsClient.TrackSpec | omi.cs:175-185 | after a commit every staged path is tracked with its staged hash and the commit time; other paths keep their rows; no other path appears |
| CsClient.TrackOthers | omi.cs:175-185 | the tracked paths after a commit are the old ones plus the staged ones, and an unstaged path keeps its row |
| CsClient.TrackStaged | omi.cs:175-185 | with distinct staged paths, each staged path is tracked with its staged hash and the commit time |
| CsClient.CommitRecord | omi.cs:158-172 | the commit hash is eight lowercase hex digits, and the files field splits back into the staged paths when no path holds a comma |
| PyClient.Selected | omi.py:163-169 | `--all` passes exactly the regular files of the listing other than the database and `.omi` |
| PyClient.PyRepo.constructor | omi.py:74-125 | a new database has four empty tables |
| PyClient.PyRepo.AddOneFile | omi.py:172-198 | a missing file changes nothing; otherwise the staging row for the name is replaced by one with the file's hash, and no blob is stored |
| PyClient.PyRepo.AddFiles | omi.py:159-170 | `--all` adds each selected file in listing order; any other pattern adds that one file |
| PyClient.PyRepo.AddAll | omi.py:163-169 | the listing loop adds exactly the selected files, in order |
| PyClient.PyRepo.CommitOneFile | omi.py:235-257 | stores a blob, by re-reading the file, only when none has the staged hash, then adds the row under the commit |
| PyClient.PyRepo.Commit | omi.py:200-233 | one commit by the user from the environment or "unknown"; all staged rows are filed under it; if a needed file is gone nothing changes |
| PyClient.PyRepo.AddOneFileFixed | omi.py:172-198 | the corrected add stores the hashed bytes at once |
| PyClient.UpsertSpec | omi.py:190-195 | upserting keeps names distinct and leaves exactly one row for the name, the new one, and every other row |
| PyClient.AddTwiceKeepsLatest | omi.py:190-195 | adding the same file twice keeps one staged row, with the latest hash and datetime |
| PyClient.AddAllSkips | omi.py:163-169 | `add --all` stages nothing but regular files of the listing |
| PyClient.AddAllNeverDatabase | omi.py:163-169 | `add --all` never stages the database itself nor `.omi` |
| PyClient.StoreOneSpec | omi.py:237-257 | one step keeps the commits, never rewrites a blob, stores the staged hash and appends the row |
| PyClient.StoreAllSpec | omi.py:223-224 | the loop keeps the commits, never rewrites a blob, stores every staged hash and appends the rows in order |
| PyClient.StoreAllSucceeds | omi.py:223-224 | the loop goes through when every staged blob is present or its file can be read |
| PyClient.StoreAllKeepsBlobs | omi.py:223-224 | when every staged hash is stored already, the loop goes through and stores nothing |
| PyClient.StoreAllFails | omi.py:223-233 | once one staged file cannot be read, the whole commit fails |
| PyClient.CommittedSpec | omi.py:200-233 | a commit always adds one commit, even with nothing staged, holding exactly the staged rows; earlier commits and blobs stay; it fails only when a missing blob's file cannot be read again |
| PyClient.StaleBlobStored | omi.py:240-249 | a file changed between add and commit is stored with its new bytes under the hash of its old bytes, breaking consistency |
| PyClient.FixedAddKeepsValid | omi.py:172-198 | with the blob stored at add time the database stays valid |
| PyClient.FixedCommitKeepsValid | omi.py:200-233 | on a valid database a commit always goes through, whatever the file system holds, and keeps the database valid |

## Left out

- Repository creation on disk: the schema statements, the file removal after a failure, and "Failed to create repository" are not modelled. `RepoTables.Created` gives the tables a new repository holds.
- HTML rendering, redirects, sessions, sign-in, two-factor codes, rate limits, push and pull over HTTP, and the media and markdown helpers: they are outside the versioning core.
- Blob `size` column: it is written and listed but nothing reads it back, so blobs are modelled as bytes only.
- `isPathSafe` and the directory listing of repositories become the parameter `available` of `JsGate.ParseRequestPath`, and `existing` of the name checks.
- Query failures in the servers' reads (which return an empty list) and the PDO open failure are not modelled. The writes' failures are modelled: `failAt` names the PHP statement that fails, `fault` stands for an engine failure of a Node script, and `AddSteps` and `CommitSteps` say which statements of the C client took effect.
- Concurrency between requests: each action runs on the tables as one request sees them. `JsStore.CommitHead` shows that the rows carried are those read before the script.
- The Node server talks to the `sqlite3` shell through text. The shell's output parsing (`\x1f` separators, `trim`) is not modelled; rows are taken as the shell returns them.
- `intval` parsing of the page parameter: `Listing.PageNumber` takes the parsed number, or none.
- `Object.values` order: the Node dirs are modelled in insertion order. This matches for non-numeric names; integer-like names come first in JavaScript.
- The content hash of the servers (`hash('sha256')`, `crypto`) is the parameter `hashOf`. Clocks, the user and the file system are parameters too.
- CliClient.BaseNameSimple: the Windows separator handling of `basename_simple` (cli/omi.c:383-386) is not modelled.
- CliClient.CliDb.CommitFiles: `commit_id` is cast to a C `int`; the model takes ids below 2^31.
- CliClient: `add_all_files` directory walks are not modelled; `CliClient.SkipMeans` states the filter they apply. `omi init <name>` accepts any name (cli/omi.c:857), and a repository file whose name holds no `.omi` is not skipped, so a walk would stage it; the model does not show this.
- PhpActions.RenameFound: when the found hash has no blob, which happens only in inconsistent tables, `getFileContent` returns null (public/index.php:596) and `commitFile` stores a NULL blob; the model stores empty bytes there.
- CsClient.CsRepository.Commit: the string-to-bytes conversion `Encoding.UTF8` and the clock ticks are parameters `utf8` and `ticks`. The error line after a repeated short hash takes the exception text as System.Data.SQLite words it; other exceptions (an unopenable database, a locked file) are not modelled.
- PyClient.PyRepo.Commit: the Python client's clock is the parameter `now`. The staged rows are taken in table order.
- CliSha256.Sha256Hex: `load_file` refuses a file that cannot be opened or read, and an empty file (length 0). It is modelled by `loaded` in `CliClient.CliDb.AddFileToDb`.

## Findings

| source | as written | input that shows it | evidently intended | confidence | as-written member | corrected member |
|---|---|---|---|---|---|---|
| public/index.php:2034 | `rename_file` commits the file under the new path, then deletes the old path, even when the two paths are equal | rename `a.txt` to `a.txt` | a rename to the same name keeps the file | high, not executed | PhpActions.RenameSameNameLoses | PhpActions.RenameFoundFixed, PhpActions.RenameFixedHead |
| public/server.js:1414-1416 | the Node `rename_file` does the same and reports success | rename `a.txt` to `a.txt` | the file is kept | high, not executed | JsActions.RenameSameNameLoses | JsActions.RenameFoundFixed, JsActions.RenameFixedHead |
| public/server.js:508 | `!result.dirs[dirName]` on a plain object is false for inherited members, so such a directory is never recorded | one row `constructor/a.txt`, browsed at the root | every sub-directory with rows below it is listed | high, not executed | Organize.ConstructorDirLost | Organize.OrganizeFilesJsOwnKeys, Organize.OwnKeysComplete |
| omi.py:240-249 | `commit` reads the file again and stores those bytes under the hash taken at `add` time | add `a.txt`, change it, commit | the stored blob is the bytes that were hashed | medium, not executed | PyClient.StaleBlobStored | PyClient.PyRepo.AddOneFileFixed, PyClient.FixedCommitKeepsValid |
