# blockchain-render: a Dafny model of the file relay

blockchain-render relays files between users. A sender uploads a file for a
receiver's blockchain address and protects it with a six-digit passcode. The
receiver downloads it with that passcode. A stored file expires after an
hour.

The repository has two backends and a browser client, and this project
models the core of each:

- **The Mongo-backed routes.**
  - Modules `Passcode`, `Encryption`, `FileModel` and `FileRoutes`.
  - The passcode is hashed with SHA-256 and the file is encrypted with
    AES-256-CBC under the passcode's digest.
  - The stored package is the 16-byte IV followed by the ciphertext.
  - Upload runs its checks in order, then encrypts, stores the package in
    IPFS, anchors it on the ledger and creates the File document.
  - Download checks the passcode format, that the file exists, the receiver
    and the passcode hash, in that order. It then decrypts and marks the file
    transferred.
- **The in-memory server** (`src/backend/server.js`, module `Server`).
  - The `db` object becomes the class `Server.Db`, with users, upload
    records, the address list and the uploads directory as fields.
  - Tokens are `"test-token-" + id`.
  - Passcodes are stored and compared in plaintext.
  - Received files are matched on trimmed, lower-cased addresses.
  - Records expire through the `cleanupExpiredFiles` sweep.
- **The client.**
  - Module `Ui` covers `ui.js`: the time-remaining text, the expiry
    classification of a card, the passcode field and download form, and the
    new-file check.
  - Module `App` covers `app.js`: the upload form's checks and the
    received-files panel that `loadFiles` rebuilds.

Module `Common` models the JavaScript string operations the code relies on:
`trim`, ASCII `toLowerCase`, `split`, `parseInt`, `Number.prototype.toString`
and UTF-16 `length`. Module `Crypto` models the primitives. SHA-256 and the
AES block cipher are uninterpreted functions in the datatype
`Crypto.Primitives`. The predicate `Crypto.Inverts` states the cipher's
correctness assumption: block decryption undoes block encryption under the
same key. CBC chaining (NIST SP 800-38A, section 6.2) and PKCS#7 padding
(RFC 5652, section 6.3) are written out and proved.

The following are all parameters:

- clocks (`now`);
- random draws (the passcode draw, IVs, fake addresses and hashes);
- what IPFS and the ledger answer;
- whether a disk write, read or unlink fails;
- the user's answer to a confirm dialog.

The two backends disagree, and each is modelled as written:

- `server.js` keeps the passcode in plaintext and normalises addresses.
- `routes/file.js` keeps only the passcode's hash and compares addresses
  exactly.

Where the code departs from the prose design, the model follows the code:

- The in-memory download checks neither the receiver nor the expiry; any
  authenticated user with the passcode gets the file (`Server.DownloadOfStored`).
- The blockchain-address route of `server.js` never finds its user (see
  Findings).
- The new-file filters of `ui.js` and `app.js` handle an unparsable stored
  check time differently: `ui.js` resets it to "0", and `app.js` counts
  nothing new.

`app.js` defines a `getTimeRemaining` that is textually identical to the one
in `ui.js` (`src/frontend/js/app.js:846-865` and `src/frontend/js/ui.js:316-335`).
It is modelled once, as `Ui.GetTimeRemaining`, and the properties proved
about it hold for both copies.

## Model

| member | source | states |
|---|---|---|
| Common.TrimCharacterised | src/backend/server.js:458 | `trim` yields the middle of the string, and what it removes on either side is all JavaScript whitespace |
| Common.TrimIdempotent | src/frontend/js/app.js:295-296 | trimming a trimmed value changes nothing |
| Common.ToLowerIdempotent | src/backend/server.js:598 | lower-casing twice is lower-casing once |
| Common.SplitAtFirst | src/backend/server.js:117 | `split` cuts at the first separator and splits the rest |
| Common.ParseIntOfNatToString | src/frontend/js/app.js:669-721 | `parseInt` reads back every numeral that `Date.now().toString()` writes |
| Common.NatToStringInjective | src/backend/utils/passcode.js:10 | distinct numbers have distinct decimal numerals |
| Crypto.CbcRoundTrip | src/backend/utils/encryption.js:16-23 | under the cipher assumption, CBC decryption with the same key and IV undoes CBC encryption of whole blocks |
| Crypto.Pad | src/backend/utils/encryption.js:19-23 | PKCS#7 padding yields 16*(len/16+1) bytes that begin with the data |
| Crypto.PadRoundTrip | src/backend/utils/encryption.js:55-58 | the final-block check accepts padded data and strips exactly the padding |
| Crypto.Unpad | src/backend/utils/encryption.js:55-58 | data is accepted exactly when it is a non-empty whole number of blocks whose last byte n is 1..16 and whose last n bytes all equal n; exactly n bytes are stripped from the end |
| Passcode.GeneratePasscode | src/backend/utils/passcode.js:4-11 | every draw in 100000..999999 gives six digits, a non-zero first digit, a code that passes the format check, and a numeral whose value is the draw |
| Passcode.GeneratePasscodeInjective | src/backend/utils/passcode.js:4-11 | different draws give different passcodes |
| Passcode.ValidatePasscodeFormatExamples | src/backend/utils/passcode.js:14-17 | six ASCII digits pass; five or seven characters, a letter, a space and the empty string fail |
| Passcode.HashPasscode | src/backend/utils/passcode.js:20-25 | the stored form is a 64-character lowercase hex digest |
| Passcode.CompareOwnHash | src/backend/utils/passcode.js:28-31 | a passcode matches its own hash |
| Passcode.HashIsNeverAPasscode | src/backend/utils/passcode.js:20-31 | a stored digest is never itself a well-formed passcode |
| Encryption.EncryptFile | src/backend/utils/encryption.js:4-36 | succeeds exactly when buffer and passcode are present; the package is 16+16*(len/16+1) bytes and starts with the IV; a failure carries the fixed message |
| Encryption.DecryptFile | src/backend/utils/encryption.js:39-71 | a success needs a block-aligned package of at least 32 bytes and yields at most one block less than the ciphertext; a package of 16 bytes or fewer always fails, with the fixed message |
| Encryption.EncryptDecryptRoundTrip | src/backend/utils/encryption.js:4-71 | decrypting a package with the passcode that made it gives back the original bytes, the empty file included |
| Encryption.ShortPackageRejected | src/backend/utils/encryption.js:42-58 | a package shorter than 32 bytes is rejected |
| Encryption.HashFile | src/backend/utils/encryption.js:74-79 | the file hash is a hex SHA-256 digest |
| Encryption.HashPasscode | src/backend/utils/encryption.js:82-87 | the passcode hash is a hex SHA-256 digest |
| Encryption.AgreesWithPasscodeHelpers | src/backend/utils/encryption.js:82-93 | this file's format check and passcode hash are the passcode helpers' |
| FileModel.MissingFields | src/backend/models/file.js:3-45 | a field is missing exactly when it is absent or empty; the filename is checked after trimming |
| FileModel.Create | src/backend/models/file.js:3-54 | a document is created exactly when nothing is missing; it keeps the given values, a trimmed filename, `isTransferred` false and `createdAt` now unless given |
| FileModel.FilenameTrimmed | src/backend/models/file.js:4-8 | a filename counts as missing exactly when it is all whitespace |
| FileModel.IndexOfId | src/backend/models/file.js:58 | findById finds the first document with the id, and reports none only when no document has it |
| FileModel.FindById | src/backend/models/file.js:58 | a found document is in the collection and has the id; none is found exactly when no document has the id |
| FileModel.VerifyPasscode | src/backend/models/file.js:57-72 | a passcode verifies only for an existing file |
| FileModel.VerifyPasscodeAgreesWithCompare | src/backend/models/file.js:57-72 | verifyPasscode holds exactly when the file exists and comparePasscode accepts its stored hash |
| FileModel.CreatedDocVerifies | src/backend/models/file.js:57-72 | a document created from a passcode's hash is verified by that passcode |
| FileRoutes.UploadPackage | src/backend/routes/file.js:78 | the package stored in IPFS starts with the IV |
| FileRoutes.FileService.Upload | src/backend/routes/file.js:53-158 | rejects in order: no file, bad passcode, no receiver, IPFS failure, ledger failure, with nothing stored by the first three; the blob stays stored when anchoring fails; creates a document with the hashes exactly when every step succeeds; ids stay unique and every stored passcode is a digest |
| FileRoutes.FileService.Download | src/backend/routes/file.js:164-228 | the reply is the ordered outcome on the stores as they were; only a success changes the collection, by marking the file transferred |
| FileRoutes.DownloadOutcome | src/backend/routes/file.js:164-217 | a file is sent only on a well-formed passcode, an existing file, the exact receiver address, a matching hash and a stored blob, with the stored type and name |
| FileRoutes.DownloadCheckOrder | src/backend/routes/file.js:166-193 | each of the 400, 404, 403 and 401 answers is given exactly when every earlier check passes and this one fails |
| FileRoutes.MarkTransferred | src/backend/routes/file.js:219-222 | only the file with that id changes, and it becomes transferred |
| FileRoutes.MarkTransferredIdempotent | src/backend/routes/file.js:219-222 | marking a file transferred twice is marking it once |
| FileRoutes.UploadedDocCreated | src/backend/routes/file.js:120-131 | an upload whose stores succeed always yields a valid document |
| FileRoutes.DownloadOfUpload | src/backend/routes/file.js:164-217 | with a content-preserving IPFS, the receiver with the upload's passcode gets the uploaded bytes under the original name and type |
| FileRoutes.UploadThenDownload | src/backend/routes/file.js:53-228 | with a content-preserving IPFS, upload and download give back the bytes; a second download sends them again; another address is refused with 403 |
| FileRoutes.SentBy | src/backend/routes/file.js:235 | exactly the documents whose sender is the caller |
| FileRoutes.SentFiles | src/backend/routes/file.js:233-255 | one summary per upload of the caller, in collection order, element by element |
| FileRoutes.SimulatedAddHash | src/backend/utils/ipfs.js:9-21 | the hash `add` hands out is "Qm" followed by at most 44 hexadecimal digits: ASCII, of even length |
| FileRoutes.SimulatedCat | src/backend/utils/ipfs.js:23-29 | the placeholder for an ASCII hash is 33 bytes longer than the hash |
| FileRoutes.SimulatedRetrievalNeverDecrypts | src/backend/utils/ipfs.js:9-29 | the placeholder answered for any hash `add` hands out fails to decrypt under every passcode |
| FileRoutes.SimulatedDownloadFails | src/backend/routes/file.js:195-211 | against the simulated client no file is ever sent and the IPFS failure is never answered; a request that passes the receiver and passcode checks is answered 500 "Failed to decrypt file" |
| FileRoutes.AddressedTo | src/backend/routes/file.js:260 | exactly the documents whose receiver address equals the caller's, compared exactly |
| FileRoutes.ReceivedFiles | src/backend/routes/file.js:258-282 | lists the summaries with sender names, or fails with 500 when a sender is gone |
| FileRoutes.OrNotAvailable | src/backend/routes/file.js:319-321 | an empty hash is shown as "Not available" and any other is kept |
| FileRoutes.Detail | src/backend/routes/file.js:285-340 | 400 without an id, 404 for an unknown one; details are shown exactly to the sender and the receiver |
| Server.TokenRoundTrip | src/backend/server.js:117 | the token for an id without '-' splits back to that id |
| Server.IssuedTokenRoundTrip | src/backend/server.js:170-181 | every id the server issues parses back from its token |
| Server.Sanitize | src/backend/server.js:359 | the UTF-16 length is kept, only [A-Za-z0-9._-] remains, and a safe name is unchanged |
| Server.SanitizeChar | src/backend/server.js:359 | a safe character is kept; an unsafe one becomes one underscore per UTF-16 unit |
| Server.SanitizeAppend | src/backend/server.js:359 | a name is sanitized piece by piece, so safe characters of a mixed name stay in place |
| Server.SanitizeIdempotent | src/backend/server.js:359 | sanitizing twice is sanitizing once |
| Server.TempFilename | src/backend/server.js:356-361 | the stored name starts with the timestamp and holds only safe characters |
| Server.LastIndexOfAfter | src/backend/server.js:704 | the last occurrence is found after every earlier one |
| Server.DropTrailingSlashes | src/backend/server.js:704 | the path without its trailing separators, as a prefix |
| Server.BaseName | src/backend/server.js:704 | the last path segment holds no "/" |
| Server.ExtName | src/backend/server.js:704 | the extension is empty, or starts with its only "." and is a proper suffix of the base name |
| Server.MimeType | src/backend/server.js:704-729 | the table entry for the lower-cased extension, else application/octet-stream |
| Server.MimeTypeIgnoresCase | src/backend/server.js:704-729 | "report.PDF" is served as application/pdf |
| Server.MimeTypeLastExtension | src/backend/server.js:704-729 | only the last extension counts |
| Server.MimeTypeDotFile | src/backend/server.js:704-729 | a name whose only dot comes first has no extension |
| Server.ServerEncrypt | src/backend/server.js:786-815 | the package length is 16+16*(len/16+1) and it starts with the IV |
| Server.ServerDecrypt | src/backend/server.js:817-848 | a success needs a block-aligned package of at least 32 bytes |
| Server.ServerCryptoRoundTrip | src/backend/server.js:786-848 | cryptoUtils decrypts what it encrypts |
| Server.NormalizeAddress | src/backend/server.js:598-615 | the normal form is lower case |
| Server.NormalizeAddressIgnoresCase | src/backend/server.js:598-622 | addresses match whatever their letter case |
| Server.NormalizeAddressIgnoresSpace | src/backend/server.js:598-622 | addresses match whatever whitespace surrounds them |
| Server.SentByAppend | src/backend/server.js:572 | a newly stored record comes last in its sender's listing; other listings are unchanged |
| Server.ReceivedAtAppend | src/backend/server.js:608-622 | a newly stored record comes last in its receiver's listing; other listings are unchanged |
| Server.SurvivorsCharacterised | src/backend/server.js:923-950 | the sweep keeps exactly the records that survive it: those not expired, and those whose unlink failed |
| Server.Unlinked | src/backend/server.js:936-945 | the sweep deletes only stored files whose unlink succeeds |
| Server.SurvivorsAppend | src/backend/server.js:923 | survivors keep their order |
| Server.SurvivorsAll | src/backend/server.js:923-950 | when nothing is expired, everything survives |
| Server.UnlinkedNone | src/backend/server.js:923-950 | when nothing is expired, nothing is deleted |
| Server.SweepIdempotent | src/backend/server.js:918-963 | a second sweep at the same time removes and deletes nothing |
| Server.SweepDecision | src/backend/server.js:924-947 | a record without createdAt, or no older than the expiry time (strictly), is kept; an older one is removed unless its unlink fails |
| Server.Db.CleanupExpiredFiles | src/backend/server.js:918-963 | the records become the survivors, the deleted files leave the directory, the count is the number removed, and users and addresses are unchanged |
| Server.Db.UserIndex | src/backend/server.js:126 | the first user with that id, or none when no user has it |
| Server.Db.Authenticate | src/backend/server.js:104-144 | 401 for a missing header, for a token without an id, and for an unknown user; otherwise the first user with the token's id |
| Server.Db.Register | src/backend/server.js:147-193 | 400 for a missing field or an email in use, with nothing stored; otherwise appends the new user with id Date.now() and returns its token; emails stay distinct |
| Server.Db.Login | src/backend/server.js:195-233 | 400 for a missing field, 401 without an exactly matching user, else that user's token |
| Server.Db.Upload | src/backend/server.js:374-567 | rejects in order: authentication, too large, no file, no receiver, no passcode, leaving the state unchanged; otherwise stores as StoreUpload states |
| Server.Db.StoreUpload | src/backend/server.js:437-503 | the sender gets an address if they have none; the record (passcode in plaintext, receiver trimmed, transferred, expiring an hour after creation) is indexed even when the write fails; the package is written only on success |
| Server.Db.SentFiles | src/backend/server.js:569-578 | exactly the records whose sender is the header's id, in storage order |
| Server.Db.ReceivedFiles | src/backend/server.js:581-635 | 404 exactly for an unknown user, 400 exactly when the first user with the id has no address; otherwise exactly the records whose normalised receiver matches that user's address, in storage order |
| Server.Db.Download | src/backend/server.js:638-756 | 401 unauthenticated, 400 without a passcode, 404 for an unknown id; for the first record with the id, 403 exactly when its plaintext passcode differs, otherwise the decrypted stored bytes (or the placeholder) with the looked-up type, or 500 when decryption fails |
| Server.DownloadOfStored | src/backend/server.js:638-756 | in any store, any authenticated user with the passcode gets the original bytes of the first record with the id; an empty passcode gets 400 and any other wrong one 403 |
| Server.RelayScenario | src/backend/server.js:147-756 | register, log in, upload and download give back the bytes with the looked-up type; a wrong passcode is refused with 403 |
| Server.Db.SetAddressFor | src/backend/server.js:854-891 | 404 for an unknown user, 400 without an address; otherwise stores the trimmed address and adds its lower case to the list |
| Server.Db.SetBlockchainAddressAsWritten | src/backend/server.js:851-897 | as written the route never finds its user and changes nothing |
| Server.Db.SetBlockchainAddress | src/backend/server.js:851-897 | the route as intended, for the authenticated user: 400 without an address; otherwise stores the trimmed address and adds its lower case to the list unless present |
| Server.AddressScenario | src/backend/server.js:851-897 | as written a registered user gets 404; the corrected route stores the trimmed address |
| Ui.GetTimeRemaining | src/frontend/js/ui.js:316-335 | the text is "Expired" exactly when no time is left |
| Ui.ReadTimeRemainingInverts | src/frontend/js/ui.js:326-334 | while time is left, the text reads back to the whole minutes remaining: "M minute(s)" below an hour, "H hour(s) and m minute(s)", or "H hour(s) " with a trailing space |
| Ui.GetTimeRemainingDistinguishesMinutes | src/frontend/js/ui.js:326-334 | two texts are equal exactly when the same whole number of minutes remains |
| Ui.GetTimeRemainingMinuteExamples | src/frontend/js/ui.js:326-329 | under a minute reads "0 minutes"; one minute reads "1 minute" |
| Ui.GetTimeRemainingWholeHourExample | src/frontend/js/ui.js:330-334 | one hour reads "1 hour " |
| Ui.GetTimeRemainingHourMinuteExample | src/frontend/js/ui.js:330-334 | 61 minutes reads "1 hour and 1 minute" |
| Ui.ClassifyExpiry | src/frontend/js/ui.js:221-240 | no block without an expiry; "Expired" exactly when no time is left; critical exactly when under 15 minutes remain |
| Ui.DownloadButtonAgainstLabel | src/frontend/js/ui.js:227-286 | with one clock reading, a disabled button is always on an expired card; an expired card's button is still enabled at the very millisecond of expiry |
| Ui.LabelAndButtonReadApart | src/frontend/js/ui.js:222-286 | with the label read before the button, an expired label still has a disabled button unless the button is read at the expiry itself, but a label read just before expiry can sit beside a button disabled just after |
| Ui.DigitsOf | src/frontend/js/ui.js:431 | only digits remain, and an all-digit value is unchanged |
| Ui.SanitizePasscodeInput | src/frontend/js/ui.js:428-436 | the result is digits only, at most 6 long, the first digits of the input |
| Ui.SanitizePasscodeInputIdempotent | src/frontend/js/ui.js:428-436 | running the handler again changes nothing |
| Ui.SanitizePasscodeInputKeepsPasscode | src/frontend/js/ui.js:428-436 | a well-formed passcode is left as typed |
| Ui.PasscodeField.OnInput | src/frontend/js/ui.js:430-436 | the field's new value is the sanitised old value |
| Ui.CheckDownloadForm | src/frontend/js/ui.js:447-459 | an empty passcode is rejected first; the handler accepts exactly when the trimmed value is six UTF-16 units long |
| Ui.MaxLengthCut | src/frontend/js/ui.js:367-368 | the field keeps at most the first six characters typed |
| Ui.SubmitDownloadForm | src/frontend/js/ui.js:367-459 | the browser's `required` and `pattern` check lets the submit event through exactly for a well-formed passcode, which the handler then accepts as is |
| Ui.SanitizedFieldSubmits | src/frontend/js/ui.js:428-459 | as intended, with the input listener on the field the form submits: it submits exactly when at least six digits were typed, and it submits the first six of them |
| Ui.UnsanitizedFieldSubmits | src/frontend/js/ui.js:367-459 | as written, nothing strips what is typed into the cloned form's field: only a value typed exactly as a passcode is submitted; "12a3456" leaves "12a345" and the browser reports a pattern mismatch, where the listener would have submitted "123456" |
| Ui.NewSinceCharacterised | src/frontend/js/ui.js:566-578 | the filter keeps exactly the files created after the last check |
| Ui.NewSinceMonotone | src/frontend/js/ui.js:566-578 | a later check never reports more files |
| Ui.LastCheckRoundTrip | src/frontend/js/ui.js:552-556 | a stored Date.now() reads back as the same time |
| Ui.CheckForNewFiles | src/frontend/js/ui.js:548-584 | nothing to do for an empty list; a reset exactly when the stored check does not parse; otherwise the files created after it |
| Ui.NewFilesToastExamples | src/frontend/js/app.js:684 | "1 new file" for one, "2 new files" for two |
| App.CheckUploadForm | src/frontend/js/app.js:295-338 | the first failing check picks the toast: no file, empty receiver, receiver under 10 units, a declined confirm (no toast), a bad passcode; it is ready exactly when all pass, with the trimmed values |
| App.ReadyFormAccepted | src/frontend/js/app.js:306-338 | what the form lets through passes both backends' input checks and is already trimmed |
| App.ReceivedList | src/frontend/js/app.js:647-648 | a present `files` wins even when empty; a failed reply gives nothing |
| App.LastCheckTime | src/frontend/js/app.js:657 | a forced refresh checks from 0; otherwise the stored value, parsed |
| App.NewFiles | src/frontend/js/app.js:660-676 | files created strictly after the check time; nothing when it does not parse |
| App.Key | src/frontend/js/app.js:698-702 | an absent or empty id falls back to `_id` |
| App.MarkedNew | src/frontend/js/app.js:698-702 | marked exactly when some new file has the same key |
| App.CardFor | src/frontend/js/app.js:692-712 | each card carries the file, its expiry block, its button state and its mark |
| App.FilesPage.ShowReceived | src/frontend/js/app.js:612-735 | the badge is cleared first and shown again only when files are new; an empty list shows the placeholder and keeps the check time; otherwise one card per file in order, a toast when files are new, and the check time advances only when none are new or the refresh is forced; a forced refresh ends with "Files refreshed successfully" |
| App.BuildCards | src/frontend/js/app.js:691-712 | one card per received file, in order |
| Ui.DigitsOfAppend | src/frontend/js/ui.js:431 | the digits of a concatenation are the digits of each part, in order |
| App.NewFilesMarked | src/frontend/js/app.js:698-702 | every new file's card is marked |
| App.MarkedIffKeyStampedAfter | src/frontend/js/app.js:660-702 | a card is marked exactly when some file with its key was created after the check |
| App.KeylessFilesMarkedTogether | src/frontend/js/app.js:698-702 | an old file without id or `_id` is marked when a keyless new file arrives |
| App.NewFilesAgreesWithCheck | src/frontend/js/app.js:657-676 | the panel's filter matches the periodic check's filter when the stored check parses; otherwise the check resets and the panel counts nothing |
| App.StoredCheckClearsOlder | src/frontend/js/app.js:720-722 | after the check time is stored, nothing created before it is new |
| App.ReloadScenario | src/frontend/js/app.js:720-722 | while new files are unacknowledged, a reload marks the same cards again |

## Left out

- AES and SHA-256 internals: uninterpreted functions with the stated cipher assumption.
- `src/backend/utils/blockchain.js`: its results come from a Web3 client.
  Its outcome is a parameter of `FileRoutes.FileService.Upload`.
- `src/backend/utils/ipfs.js`: the client the routes call is simulated.
  `add` stores nothing and returns a hash drawn from `Math.random`; `cat`
  answers the text "Simulated IPFS content for hash: " followed by the hash,
  whatever was uploaded. `FileRoutes.FileService` keeps a blob store that
  returns what was stored instead, and the hash is a parameter of
  `FileRoutes.FileService.Upload`. The client as written is
  `FileRoutes.SimulatedAddHash` and `FileRoutes.SimulatedCat`.
- FileRoutes.DownloadOfUpload: `blobs` stands for a content-preserving IPFS,
  not the simulated client. As written, every download that passes the
  receiver and passcode checks answers 500 "Failed to decrypt file"
  (`FileRoutes.SimulatedDownloadFails`).
- FileRoutes.UploadThenDownload: the same content-preserving store. As
  written, both downloads by the receiver answer 500 "Failed to decrypt
  file".
- `src/backend/routes/auth.js`, `src/backend/routes/receiver.js`, and the
  `authenticate` middleware at `src/backend/routes/file.js:19-50`: they
  wrap a Mongoose User model and `jsonwebtoken`, which are not part of this
  model. The caller is a parameter.
- `src/frontend/js/api.js`, `src/frontend/js/auth.js` and `serve-frontend.js`:
  fetch, localStorage and static file plumbing.
- The receiver routes (`src/backend/server.js:280-330`): random address
  generation with `Math.random`. Upload's fallback address is a parameter.
- `/api/auth/me` (`src/backend/server.js:235-277`): the same lookup as
  `Server.Db.Authenticate`.
- Timers, filesystem calls, express and multer middleware, DOM rendering,
  console logging and the toasts outside the received-files panel.
  - The sweep's schedule and the polling interval are not modelled.
  - Disk outcomes are parameters.
  - Multer errors other than the size limit are not modelled.
- Floating-point helpers: `formatFileSize`, `percentRemaining` and the
  progress bar.
- Date strings: timestamps are integer milliseconds, and an invalid date is
  `Ui.Stamp.Unparsable`.
- Server.Db.StoreUpload: one clock reading serves as the id, `createdAt` and
  `expiresAt`. The handler reads the clock three times, milliseconds apart.
- Server.Db.Download: a file is found by `id` only. The `_id` alternative of
  the lookup matches no record the server creates.
- Ui.MaxLengthCut: counts characters, where `maxlength` counts UTF-16 units.
- Ui.SanitizedFieldSubmits: the listener is applied to the whole typed value, not keystroke by keystroke.
- The resets of the passcode field after a download and when the modal opens (`src/frontend/js/ui.js:474`, `492`) clear the field of the detached original form, so the visible field keeps whatever it held. The model has no detached form.
- Ui.DownloadButtonAgainstLabel: holds for one clock reading only. `createFileCard` reads the clock separately for the label and for the button (`src/frontend/js/ui.js:222`, `285-286`, `317`); `Ui.LabelAndButtonReadApart` states what holds across two readings.
- App.FilesPage.ShowReceived: one `now` serves the cards and the stored check time. `loadFiles` reads `Date.now()` again for the check time it stores (`src/frontend/js/app.js:721`).
- FileModel.FindById: ids are plain strings. Mongoose casts the id to an ObjectId, and a malformed id makes `findById` reject with a CastError, where the model finds nothing.
- FileModel.VerifyPasscode: for a malformed id the static rejects with that CastError instead of returning false.
- FileRoutes.FileService.Download: a malformed id lands in the catch block and is answered 500 "Server error" (`src/backend/routes/file.js:223-228`); the model answers 404.
- FileRoutes.DownloadCheckOrder: the 404 case includes malformed ids, which the route answers with 500.
- FileRoutes.Detail: a malformed id is answered 500 by the catch block (`src/backend/routes/file.js:335-340`); the model answers 404.
- Server.Db.Upload: the branch for a user who disappears between
  authentication and upload cannot be reached in a single-threaded run, so
  it is not modelled. The same holds for the encryption-failure path.
- Common.ToLower: lowercases ASCII letters only.
- Common.ParseInt: integers are unbounded, so precision limits above 2^53
  do not apply.
- The multi-step interleaving of concurrent requests is not modelled: each
  handler runs to completion.

## Findings

| source | as written | input that shows it | evidently intended | confidence | as-written member | corrected member |
|---|---|---|---|---|---|---|
| src/frontend/js/ui.js:428-447 | the passcode listener is attached to the field of the original download form, which is then replaced by a clone; the clone keeps `maxlength` and `pattern` but carries no listeners, so non-digits are never stripped while typing | typing "12a3456": the field stops at "12a345" and the browser reports a pattern mismatch instead of submitting | attach the listener to the cloned form's field, so stray non-digits are dropped and "123456" is submitted | not executed | Ui.UnsanitizedFieldSubmits | Ui.SanitizedFieldSubmits |
| src/backend/server.js:851-857 | the blockchain-address route looks the user up by `req.userId`, which `authenticateToken` never sets, so the lookup always fails with 404 | a registered user with a valid token posts any address | look up the authenticated user (the id carried by the token) and store the trimmed address | not executed | Server.AddressScenario | Server.Db.SetBlockchainAddress |
