# ShareX upload gateway: a Dafny model of its request handling

The server accepts `POST /upload` multipart requests from ShareX. Each upload is stored as
`data/public/<subdir>/<name>`. The subdirectory is `i` for images and `f` for everything else,
and the request is answered with a public URL and a delete URL. `GET /delete?filename=&key=&subdir=`
removes a stored file when it is given the configured key.

This project models that request handling over a disk abstracted as a map from paths to bytes:

- `naming.dfy` (module `Naming`) holds the pure string logic:
  - Node's POSIX `path.extname`;
  - JavaScript's first-occurrence `String.replace`;
  - the image/file classification;
  - the space-to-underscore sanitising;
  - the two URLs.
- `gateway.dfy` (module `Gateway`) holds the process-wide `reqData`/`resData` records and the disk as a
  value `Server`. It gives:
  - one step function per multipart event (`file`, `field`, `finish`);
  - the delete handler as a decision procedure;
  - a class `App` whose fields are those records. Its methods `OnFile`, `OnField`, `OnFinish` and
    `Delete` update the fields in place, and each is proved to follow its step function.
- `requests.dfy` (module `Requests`) folds a request's parts into the event sequence, serves sequences of
  requests, and proves what happens across requests. This matters because the shared records are never
  reset while the process lives.

The `finish` handler throws instead of answering in three situations, and the model keeps each one as a
`Fault`:
- no file part was ever received, so `path.extname(null)` throws;
- the file name is empty, so the destination is the subdirectory itself and `unlinkSync` throws;
- the temporary file is missing, so `moveSync` throws. This happens when a request without a file part
  follows an upload: the stale record names the earlier temporary file, which is already gone. The
  served file of that earlier upload is deleted before the throw.

The throw happens inside busboy's `finish` listener, outside Express's error handling, so it is an
uncaught exception and ends the process. In a sequence of requests, the model therefore serves the next
request with a restarted process. That process begins with the start-up records of `src/app.js:24-35`
and keeps the disk as the throw left it. A process that is not restarted serves nothing more, which is
a prefix of the same sequence.

The configured key is `process.env.KEY | "key"`. In JavaScript that is a bitwise OR, which yields a
32-bit integer, and the handlers compare against it with loose `==`/`!=`. In the model the configured key
is a string parameter of every handler and is compared exactly.

## Model

| member | source | states |
|---|---|---|
| Naming.IndexOf | src/app.js:81 | the index of the first occurrence of a character, or -1 when there is none (the search `replace` performs) |
| Naming.LastIndexOf | src/app.js:73 | the index of the last occurrence of a character, or -1 |
| Naming.Find | src/app.js:17 | `indexOf` on the extension list: -1 exactly when the key is absent, otherwise an index holding it |
| Naming.ReplaceFirst | src/app.js:73 | `String.replace` with a string pattern: unchanged without a match; with one, one character gives way to the replacement |
| Naming.ReplaceFirstValue | src/app.js:73 | with a match, the result is the text before the first match, the replacement, and the text after it |
| Naming.TrimTrailingSlashes | src/app.js:73 | a prefix of the path that does not end in `/` |
| Naming.TrimTrailingSlashesValue | src/app.js:73 | only slashes were removed: every character after the result is `/` |
| Naming.AfterLastSlash | src/app.js:73 | a text no longer than the input and containing no `/` |
| Naming.AfterLastSlashValue | src/app.js:73 | the result is the suffix of the input that starts at its beginning or right after a `/` |
| Naming.BaseName | src/app.js:73 | a text containing no `/` |
| Naming.BaseNameValue | src/app.js:73 | the base name is a component of the path: it starts at the beginning or after a `/`, and only slashes follow it |
| Naming.ExtName | src/app.js:73 | `path.extname`: either empty or starting with `.` |
| Naming.ExtNameShape | src/app.js:73 | a non-empty extension has exactly one dot, at its start, and no `/` |
| Naming.AfterLastSlashNoSlash | src/app.js:73 | a slash-free text is its own last component |
| Naming.BaseNameNoSlash | src/app.js:73 | a slash-free name is its own base name |
| Naming.ExtNameOfDotted | src/app.js:73 | `stem.ext` with a non-empty stem has extension `.ext` |
| Naming.ExtNameWithoutDot | src/app.js:73 | a name without a dot has no extension |
| Naming.ExtNameOfHidden | src/app.js:73 | a name whose only dot is leading (`.bashrc`) has no extension |
| Naming.ExtKey | src/app.js:73 | the extension without its leading dot, or "" when there is no extension |
| Naming.SubDirFor | src/app.js:72-79 | `i` exactly when the extension, without its dot, is one of `png`, `jpg`, `jpeg`, `bmp`; `f` otherwise |
| Naming.SubDirForDotted | src/app.js:17 | for `stem.ext`, the choice is `i` exactly when `ext` is in the image list |
| Naming.UpperCaseExtensionIsFile | src/app.js:73-79 | the match is case-sensitive: `.png` goes to `i`, `.PNG` to `f` |
| Naming.Sanitize | src/app.js:81 | character by character: the first space becomes `_` and every other character, later spaces included, is kept |
| Naming.SanitizeEmpty | src/app.js:81 | only the empty name sanitises to the empty name |
| Naming.SanitizeFirstSpaceOnly | src/app.js:81 | `a + " " + b` with no space in `a` becomes `a + "_" + b`, keeping any spaces of `b` |
| Naming.SanitizeWithoutSpace | src/app.js:81 | a name without a space is unchanged |
| Naming.SanitizeCollision | src/app.js:81 | `a b` and `a_b` are different names stored at the same destination |
| Naming.Scheme | src/app.js:92-93 | `https://` for a secure request, `http://` otherwise |
| Naming.BuildUrls | src/app.js:96-99 | the URL is `<scheme><host>/<subdir>/<name>` and the delete URL `<scheme><host>/delete?filename=<name>&key=<key>&subdir=<subdir>`; both are `https` exactly when the request is secure |
| Gateway.Segments | src/app.js:83 | the segments joined for a temporary or served path, ending with the file name |
| Gateway.SegmentsInjective | src/app.js:83 | different paths never join to the same segments |
| Gateway.Truthy | src/app.js:66 | JavaScript truthiness of a string or `null`: false exactly for `null` and "" |
| Gateway.Initial | src/app.js:24-35 | at start-up there is no file name and no key, and the response is 400/false |
| Gateway.InitialInvariant | src/app.js:24-35 | the start-up state satisfies the invariant |
| Gateway.FileEvent | src/app.js:47-52 | the request data names the file and its temporary file, which holds the bytes; the accepted key, the response record and all other paths are unchanged; the invariant is kept |
| Gateway.FieldEvent | src/app.js:53-59 | the key is stored exactly when the field is `key` with the configured value; nothing else ever changes |
| Gateway.Destination | src/app.js:72-83 | the served path of an upload is under `i` or `f`, with a name of the same length |
| Gateway.UnlinkSync | src/app.js:89 | the path is removed and every other file is unchanged |
| Gateway.MoveSync | src/app.js:95 | the destination holds the source's bytes, the source is gone, and nothing else changed |
| Gateway.Granted | src/app.js:66 | the test of `finish`: it needs a file name and a stored key, and fails when either is "" |
| Gateway.Grant | src/app.js:66-70 | 200/true is set when a file name and an accepted key are both present; otherwise the response is left as it was |
| Gateway.MoveIntoPlace | src/app.js:87-99 | with a temporary file: the destination holds its bytes, it is gone, no other path changed, and the reply carries the code, flag and links. Without one: the destination file is deleted and the fault is `TempFileMissing` |
| Gateway.FinishEvent | src/app.js:61-105 | the code becomes 200 exactly when granted, and success never goes back to false; the invariant is kept; a reply is sent exactly when a name and the temporary file are present; otherwise it names the fault (null name, empty name, missing temporary file) |
| Gateway.FinishMovesUpload | src/app.js:83-99 | a named upload with its temporary file present is moved to its destination, whatever the key, and is answered with the current code, flag and links |
| Gateway.FinishWithoutTempFile | src/app.js:87-95 | a named upload whose temporary file is missing deletes the file at the destination and throws |
| Gateway.Incomplete | src/app.js:110 | a query missing `filename`, `key` or `subdir`, or with any of them "", is incomplete; a complete one has all three |
| Gateway.Target | src/app.js:136 | the delete target is `<subdir>/<filename>` taken verbatim |
| Gateway.HandleDelete | src/app.js:109-156 | a missing parameter gives 400; otherwise a wrong key gives 401; otherwise an absent file gives 400; each leaves the disk unchanged. Otherwise exactly the target is removed and the message is `Deleted file <filename>`; the status is 200 exactly for a deletion |
| Gateway.App.constructor | src/app.js:24-35 | the fields start as the initial state, which is valid |
| Gateway.App.OnFile | src/app.js:47-52 | the fields change as `FileEvent` says, and validity is kept |
| Gateway.App.OnField | src/app.js:53-59 | the fields change as `FieldEvent` says, and validity is kept |
| Gateway.App.OnFinish | src/app.js:61-105 | the new fields and the outcome are those of `FinishEvent`, and validity is kept |
| Gateway.App.PlaceUpload | src/app.js:87-99 | the new fields and the outcome are those of `MoveIntoPlace`, and validity is kept |
| Gateway.App.Delete | src/app.js:109-156 | the new disk and the reply are those of `HandleDelete`, and validity is kept |
| Requests.OnPart | src/app.js:47-59 | a part never touches the response record, and the invariant is kept |
| Requests.Parse | src/app.js:45-59 | a request's parts never touch the response record, and the invariant is kept |
| Requests.LastFile | src/app.js:48 | the file part `finish` sees is a file part of the request, and there is none exactly when every part is a field |
| Requests.ParseKey | src/app.js:53-59 | after the parts, the stored key is the configured one if some field sent it, and otherwise whatever was stored before; a wrong key never sets it |
| Requests.ParseFile | src/app.js:47-52 | after the parts, the request data names the last file part and its temporary file holds its bytes; without a file part the old name and temporary file stay |
| Requests.ParseKeepsPublicFiles | src/app.js:47-52 | parsing a request changes no served file |
| Requests.Upload | src/app.js:45-107 | an upload keeps the invariant; the code is 200 or what it was before; success never goes back to false |
| Requests.UploadStores | src/app.js:61-105 | a named upload is stored at its destination and its temporary file is gone; every other served file is unchanged; it is 200/true exactly when a non-empty key was sent now or earlier, otherwise the old code and flag; the links point at the destination |
| Requests.UnauthorisedUploadRevealsKey | src/app.js:96-100 | a first upload without the key is still stored and answered 400/false, and its delete URL carries the configured key |
| Requests.FirstUploadNeedsKey | src/app.js:66-70 | from start-up, a 200 reply requires that the key was sent; a named file with the non-empty key sent gets 200/true |
| Requests.DeleteAfterUpload | src/app.js:98 | for a name and a key without `&`, `#`, `+` or `%`, the delete URL of a stored upload carries parameters that delete it; repeating them gives "Cant find to delete" |
| Requests.DeleteByLink | src/app.js:136-155 | complete parameters naming a present file with the right key delete it once, and the second time report it missing |
| Requests.DeleteTwice | src/app.js:136-155 | after a successful delete, the identical query is answered 400 "Cant find to delete" and changes nothing |
| Requests.ReuploadOverwrites | src/app.js:87-95 | of two uploads with the same name, the second one's bytes are served |
| Requests.StaleRequestDestroysUpload | src/app.js:24-28 | after an upload, a request without a file part deletes that upload's served file and throws `TempFileMissing` |
| Requests.LaterUploadsNeedNoKey | src/app.js:24-28 | once a key was accepted, any later named upload is answered 200/true without sending a key |
| Requests.Handle | src/app.js:45-156 | one request keeps the invariant; a delete never touches the shared records; an upload that is answered leaves exactly the state `Upload` produced, with both records carried over, and one that throws leaves a restarted process with 400/false and no key or file name over `Upload`'s disk |
| Requests.Serve | src/app.js:24-35 | every state reached by a sequence of requests satisfies the invariant |
| Requests.SuccessIsSticky | src/app.js:30-35 | once the response record is 200/true, it stays so after any sequence of requests in which no upload throws |
| Requests.KeyIsSticky | src/app.js:24-28 | once a key was accepted, it stays accepted after any sequence of requests in which no upload throws |
| Requests.CrashForgetsGrant | src/app.js:24-35 | after an upload, a request without a file part throws; the restarted process has 400/false and no key, so a following upload without the key is answered 400/false |

## Left out

- The key setting: `process.env.KEY | "key"` is a bitwise OR, so the real key is a 32-bit integer compared with loose `==`. The model takes the key as a string compared exactly.
- The `PORT | 80` listen port, `app.listen`, and the logger: these are I/O with no effect on the handlers' results.
- Express routing, static serving of `/f` and `/i`, and the `GET /` text: these are library mounts with no logic.
- Busboy parsing and streaming with `pipe`/`createWriteStream`. The `file` event is one atomic step, so the temporary file holds its bytes at once, and a request is a sequence of already-parsed parts. Busboy's own handling of a part without a file name is not modelled.
- `uniqueFilename`: the temporary name is a parameter of each file part. No freshness is assumed, because no proved property depends on it.
- `fs.ensureDir` at start-up: the directories are taken to exist, since a path in the model is not a file in a directory tree.
- `path.join` normalisation (`..`, repeated separators, a `/` inside a name): paths are joined verbatim, so path traversal through `filename` or `subdir` is not covered.
- Query-string parsing: a delete query is three optional strings. Repeated parameters, which Express turns into arrays, are not modelled, and neither is the decoding of `+` and `%XX`.
- DeleteAfterUpload: stated only for names and keys without `&`, `#`, `+` or `%`. The source puts them into the delete URL without encoding, so for other values the link's parameters name a different file.
- Process restart: after an uncaught throw in `finish`, the next request is served by a fresh process over the same disk. Whether anything restarts the process is deployment, not code.
- The JSON bodies and the `Content-Type` header: a reply is its status, its flag and its links or messages.
- Errors from `unlinkSync` in the delete handler, such as permissions or a directory target: the disk never refuses an operation, apart from the three faults above.
- Concurrency: requests are served one after another, so interleaved requests that share `reqData`/`resData` are not modelled.
