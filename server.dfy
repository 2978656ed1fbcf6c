/** The self-contained Express server: an in-memory `db` of users, file
    records and known addresses, mock tokens of the form "test-token-<id>",
    uploads encrypted to an uploads directory, listings, downloads, and the
    hourly sweep of expired files.

    The uploads directory is the map `disk` from file id to stored bytes.
    The clock, the random bytes, and the outcome of each disk operation are
    passed in. */
module Server {
  import opened Common
  import opened Crypto
  import Encryption

  const OneHour: nat := 3600000
  const MaxUploadBytes: nat := 52428800

  datatype User = User(id: string, username: string, email: string, password: string,
                       blockchainAddress: Option<string>)

  /** The user fields the server puts in req.user and in its responses. */
  datatype UserView = UserView(id: string, username: string, email: string,
                               blockchainAddress: Option<string>)

  /** A file record. `createdAt` is None for a record without a creation
      time; the server writes one on every upload. */
  datatype FileRecord = FileRecord(
    id: string, filename: string, size: nat, sender: string, senderAddress: string,
    receiverAddress: string, passcode: string, ipfsHash: string, blockchainTxHash: string,
    isTransferred: bool, createdAt: Option<int>, expiresAt: int)

  function View(u: User): UserView {
    UserView(u.id, u.username, u.email, u.blockchainAddress)
  }

  // ---------------------------------------------------------------------------
  // Mock tokens.

  function TokenFor(id: string): string {
    "test-token-" + id
  }

  /** `header.split('-')[2]`, undefined when there are fewer than three parts. */
  function TokenUserId(header: string): Option<string> {
    var parts := Split(header, '-');
    if |parts| > 2 then Some(parts[2]) else None
  }

  /** `req.headers.authorization?.split('-')[2]`. */
  function RawUserId(header: Option<string>): Option<string> {
    if header.None? then None else TokenUserId(header.value)
  }

  /** The token issued for an id without '-' carries that id back. */
  lemma TokenRoundTrip(id: string)
    requires '-' !in id
    ensures TokenUserId(TokenFor(id)) == Some(id)
  {
    assert TokenFor(id) == "test" + ['-'] + ("token" + ['-'] + id);
    SplitAtFirst("test", '-', "token" + ['-'] + id);
    SplitAtFirst("token", '-', id);
    SplitNoSeparator(id, '-');
  }

  /** Every id the server issues is a decimal numeral, so its token parses. */
  lemma IssuedTokenRoundTrip(now: nat)
    ensures TokenUserId(TokenFor(NatToString(now))) == Some(NatToString(now))
    ensures NatToString(now) != ""
  {
    var id := NatToString(now);
    assert '-' !in id;
    TokenRoundTrip(id);
  }

  // ---------------------------------------------------------------------------
  // Pure helpers of the upload and download handlers.

  predicate SafeChar(c: char) {
    ('a' <= c <= 'z') || ('A' <= c <= 'Z') || ('0' <= c <= '9') || c == '.' || c == '-' || c == '_'
  }

  /** `originalname.replace(/[^a-zA-Z0-9\.\-\_]/g, '_')`. The expression has
      no `u` flag, so it works on UTF-16 code units and a character outside
      the Basic Multilingual Plane becomes two underscores. */
  function Sanitize(name: string): (r: string)
    ensures |r| == Utf16Length(name)
    ensures forall i :: 0 <= i < |r| ==> SafeChar(r[i])
    ensures (forall i :: 0 <= i < |name| ==> SafeChar(name[i])) ==> r == name
  {
    if name == [] then []
    else
      (if SafeChar(name[0]) then [name[0]] else if name[0] as int >= 0x10000 then "__" else "_") +
      Sanitize(name[1..])
  }

  /** The name is sanitized character by character: a safe character stays
      as it is and an unsafe one becomes one underscore per UTF-16 unit. */
  lemma SanitizeChar(c: char)
    ensures SafeChar(c) ==> Sanitize([c]) == [c]
    ensures !SafeChar(c) ==> Sanitize([c]) == seq(Utf16Length([c]), _ => '_')
  {
    assert [c][1..] == [];
  }

  /** Sanitizing a concatenation sanitizes each part in place, so every safe
      character of a mixed name keeps its place among its neighbours. */
  lemma {:induction false} SanitizeAppend(a: string, b: string)
    ensures Sanitize(a + b) == Sanitize(a) + Sanitize(b)
  {
    if a == [] {
      assert a + b == b;
    } else {
      assert (a + b)[0] == a[0];
      assert (a + b)[1..] == a[1..] + b;
      SanitizeAppend(a[1..], b);
    }
  }

  /** Sanitizing a sanitized name changes nothing. */
  lemma SanitizeIdempotent(name: string)
    ensures Sanitize(Sanitize(name)) == Sanitize(name)
  {
  }

  /** The temporary name multer gives an upload. */
  function TempFilename(now: nat, originalname: string): (r: string)
    ensures HasPrefix(r, NatToString(now) + "-")
    ensures forall i :: 0 <= i < |r| ==> SafeChar(r[i])
  {
    var stamp := NatToString(now);
    assert forall i :: 0 <= i < |stamp| ==> SafeChar(stamp[i]);
    var r := stamp + "-" + Sanitize(originalname);
    assert r[..|stamp + "-"|] == stamp + "-";
    r
  }

  function LastIndexOf(s: string, c: char): (r: Option<nat>)
    ensures r.Some? ==> (r.value < |s| && s[r.value] == c && forall j :: r.value < j < |s| ==> s[j] != c)
    ensures r.None? ==> forall j :: 0 <= j < |s| ==> s[j] != c
    decreases |s|
  {
    if s == [] then None
    else if s[|s| - 1] == c then Some(|s| - 1)
    else LastIndexOf(s[..|s| - 1], c)
  }

  /** The last occurrence is the one after which the character no longer
      appears. */
  lemma {:induction false} LastIndexOfAfter(a: string, c: char, b: string)
    requires c !in b
    ensures LastIndexOf(a + [c] + b, c) == Some(|a|)
    decreases |b|
  {
    var s := a + [c] + b;
    if b != [] {
      assert s[..|s| - 1] == a + [c] + b[..|b| - 1];
      LastIndexOfAfter(a, c, b[..|b| - 1]);
    } else {
      assert s[|s| - 1] == c;
    }
  }

  function DropTrailingSlashes(s: string): (r: string)
    ensures |r| <= |s| && r == s[..|r|] && (r == [] || r[|r| - 1] != '/')
    decreases |s|
  {
    if s != [] && s[|s| - 1] == '/' then DropTrailingSlashes(s[..|s| - 1]) else s
  }

  /** The last path segment, trailing separators ignored. */
  function BaseName(path: string): (r: string)
    ensures '/' !in r
  {
    var t := DropTrailingSlashes(path);
    match LastIndexOf(t, '/')
    case None => t
    case Some(i) => t[i + 1..]
  }

  /** path.extname (POSIX): from the last '.' of the last segment to its end;
      empty when the segment has no '.', when its last '.' is its first
      character, or when it is "..". */
  function ExtName(path: string): (r: string)
    ensures r == [] || (r[0] == '.' && '.' !in r[1..] && '/' !in r)
    ensures r != [] ==> |r| < |BaseName(path)| && BaseName(path)[|BaseName(path)| - |r|..] == r
  {
    var b := BaseName(path);
    match LastIndexOf(b, '.')
    case None => []
    case Some(d) =>
      if d == 0 || b == ".." then []
      else
        var r := b[d..];
        assert '.' !in r[1..] by {
          forall j | 0 <= j < |r| - 1 ensures r[1..][j] != '.' { assert r[1..][j] == b[d + 1 + j]; }
        }
        r
  }

  const MimeTypes: map<string, string> := map[
    ".txt" := "text/plain",
    ".pdf" := "application/pdf",
    ".html" := "text/html",
    ".htm" := "text/html",
    ".jpg" := "image/jpeg",
    ".jpeg" := "image/jpeg",
    ".png" := "image/png",
    ".gif" := "image/gif",
    ".doc" := "application/msword",
    ".docx" := "application/vnd.openxmlformats-officedocument.wordprocessingml.document",
    ".xls" := "application/vnd.ms-excel",
    ".xlsx" := "application/vnd.openxmlformats-officedocument.spreadsheetml.sheet",
    ".csv" := "text/csv",
    ".json" := "application/json",
    ".xml" := "application/xml",
    ".zip" := "application/zip"]

  const DefaultMimeType := "application/octet-stream"

  /** The Content-Type of a download: the table entry for the lowercased
      extension, or the default. */
  function MimeType(filename: string): (t: string)
    ensures ToLower(ExtName(filename)) in MimeTypes ==> t == MimeTypes[ToLower(ExtName(filename))]
    ensures ToLower(ExtName(filename)) !in MimeTypes ==> t == DefaultMimeType
  {
    var extension := ToLower(ExtName(filename));
    if extension in MimeTypes then MimeTypes[extension] else DefaultMimeType
  }

  /** The lookup ignores the extension's letter case. */
  lemma MimeTypeIgnoresCase()
    ensures MimeType("report.PDF") == "application/pdf"
  {
    assert DropTrailingSlashes("report.PDF") == "report.PDF";
    assert BaseName("report.PDF") == "report.PDF";
    assert "report.PDF" == "report" + ['.'] + "PDF";
    LastIndexOfAfter("report", '.', "PDF");
    assert ExtName("report.PDF") == ".PDF";
    assert ToLower(".PDF") == ".pdf";
  }

  /** Only the last extension counts. */
  lemma MimeTypeLastExtension()
    ensures MimeType("a.tar.gz") == DefaultMimeType
  {
    assert DropTrailingSlashes("a.tar.gz") == "a.tar.gz";
    assert BaseName("a.tar.gz") == "a.tar.gz";
    assert "a.tar.gz" == "a.tar" + ['.'] + "gz";
    LastIndexOfAfter("a.tar", '.', "gz");
    assert ExtName("a.tar.gz") == ".gz";
    assert ToLower(".gz") == ".gz";
  }

  /** A name whose only dot is its first character has no extension. */
  lemma MimeTypeDotFile()
    ensures MimeType(".json") == DefaultMimeType
  {
    assert DropTrailingSlashes(".json") == ".json";
    assert BaseName(".json") == ".json";
    assert ".json" == "" + ['.'] + "json";
    LastIndexOfAfter("", '.', "json");
    assert ExtName(".json") == "";
    assert ToLower("") == "";
  }

  // ---------------------------------------------------------------------------
  // cryptoUtils: the package framing of the encryption helpers, throwing on
  // failure instead of reporting it. The passcode goes through String().

  /** cryptoUtils.encryptFile: never throws on a buffer and a string. */
  function ServerEncrypt(p: Primitives, fileData: Bytes, passcode: string, iv: Block): (pkg: Bytes)
    ensures |pkg| == Encryption.IvLength + 16 * (|fileData| / 16 + 1)
    ensures pkg[..Encryption.IvLength] == iv
  {
    Encryption.EncryptFile(p, Some(fileData), Some(passcode), iv).encryptedBuffer
  }

  /** cryptoUtils.decryptFile: None where it throws. */
  function ServerDecrypt(p: Primitives, encryptedData: Bytes, passcode: string): (r: Option<Bytes>)
    ensures r.Some? ==> |encryptedData| >= Encryption.IvLength + 16 && |encryptedData| % 16 == 0
  {
    match Encryption.DecryptFile(p, Some(encryptedData), Some(passcode))
    case DecryptFailed(_) => None
    case Decrypted(plain) => Some(plain)
  }

  lemma ServerCryptoRoundTrip(p: Primitives, fileData: Bytes, passcode: string, iv: Block)
    requires Inverts(p)
    ensures ServerDecrypt(p, ServerEncrypt(p, fileData, passcode, iv), passcode) == Some(fileData)
  {
    Encryption.EncryptDecryptRoundTrip(p, fileData, passcode, iv);
  }

  // ---------------------------------------------------------------------------
  // Listings and the sweep, as functions of the records.

  /** The received filter's normal form: String(address).trim().toLowerCase(). */
  function NormalizeAddress(a: string): (r: string)
    ensures ToLower(r) == r
  {
    ToLowerIdempotent(Trim(a));
    ToLower(Trim(a))
  }

  predicate ReceivedBy(f: FileRecord, userAddress: string) {
    f.receiverAddress != "" && NormalizeAddress(f.receiverAddress) == NormalizeAddress(userAddress)
  }

  /** The sent filter's test: `f.sender === userId`. */
  function SenderIs(userId: Option<string>): FileRecord -> bool {
    (f: FileRecord) => Some(f.sender) == userId
  }

  /** The records a user sent, in storage order. */
  function SentBy(files: seq<FileRecord>, userId: Option<string>): (r: seq<FileRecord>)
    ensures forall i :: 0 <= i < |r| ==> r[i] in files && Some(r[i].sender) == userId
    ensures forall i :: 0 <= i < |files| && Some(files[i].sender) == userId ==> files[i] in r
  {
    Filter(files, SenderIs(userId))
  }

  /** Storing one more record adds it at the end of its sender's listing and
      leaves every other listing as it was. */
  lemma SentByAppend(files: seq<FileRecord>, f: FileRecord, userId: Option<string>)
    ensures SentBy(files + [f], userId) == SentBy(files, userId) + (if Some(f.sender) == userId then [f] else [])
  {
    FilterAppend(files, [f], SenderIs(userId));
    assert [f][1..] == [];
  }

  /** The received filter's test. */
  function ReceiverMatches(userAddress: string): FileRecord -> bool {
    (f: FileRecord) => ReceivedBy(f, userAddress)
  }

  /** The records addressed to a user's address, in storage order. */
  function ReceivedAt(files: seq<FileRecord>, userAddress: string): (r: seq<FileRecord>)
    ensures forall i :: 0 <= i < |r| ==> r[i] in files && ReceivedBy(r[i], userAddress)
    ensures forall i :: 0 <= i < |files| && ReceivedBy(files[i], userAddress) ==> files[i] in r
  {
    Filter(files, ReceiverMatches(userAddress))
  }

  /** Storing one more record adds it at the end of its receiver's listing
      and leaves every other listing as it was. */
  lemma ReceivedAtAppend(files: seq<FileRecord>, f: FileRecord, userAddress: string)
    ensures ReceivedAt(files + [f], userAddress) ==
      ReceivedAt(files, userAddress) + (if ReceivedBy(f, userAddress) then [f] else [])
  {
    FilterAppend(files, [f], ReceiverMatches(userAddress));
    assert [f][1..] == [];
  }

  lemma {:induction false} TrimStartLower(s: string)
    ensures TrimStart(ToLower(s)) == ToLower(TrimStart(s))
    decreases |s|
  {
    if s != [] {
      assert ToLower(s)[1..] == ToLower(s[1..]);
      TrimStartLower(s[1..]);
    }
  }

  lemma {:induction false} TrimEndLower(s: string)
    ensures TrimEnd(ToLower(s)) == ToLower(TrimEnd(s))
    decreases |s|
  {
    if s != [] {
      assert ToLower(s)[..|s| - 1] == ToLower(s[..|s| - 1]);
      TrimEndLower(s[..|s| - 1]);
    }
  }

  /** Addresses match whatever their letter case. */
  lemma NormalizeAddressIgnoresCase(a: string)
    ensures NormalizeAddress(ToLower(a)) == NormalizeAddress(a)
  {
    TrimStartLower(a);
    TrimEndLower(TrimStart(a));
    ToLowerIdempotent(Trim(a));
  }

  /** Addresses match whatever whitespace surrounds them. */
  lemma NormalizeAddressIgnoresSpace(a: string)
    ensures NormalizeAddress(Trim(a)) == NormalizeAddress(a)
  {
    TrimIdempotent(a);
  }

  /** One run of cleanupExpiredFiles: the time it reads, the expiry age,
      the uploads directory when it starts, and the stored files whose
      unlinkSync throws. */
  datatype Sweep = Sweep(now: int, expiryTime: int, disk: map<string, Bytes>, unlinkFails: set<string>)

  predicate Expired(f: FileRecord, sw: Sweep) {
    f.createdAt.Some? && sw.now - f.createdAt.value > sw.expiryTime
  }

  /** An expired record whose stored file exists and cannot be unlinked is
      kept; every other expired record is removed. */
  predicate Survives(f: FileRecord, sw: Sweep) {
    !Expired(f, sw) || (f.id in sw.disk && f.id in sw.unlinkFails)
  }

  predicate Unlinks(f: FileRecord, sw: Sweep) {
    Expired(f, sw) && f.id in sw.disk && f.id !in sw.unlinkFails
  }

  /** The records the sweep keeps, in order. */
  function Survivors(files: seq<FileRecord>, sw: Sweep): (r: seq<FileRecord>)
    ensures |r| <= |files|
  {
    if files == [] then []
    else (if Survives(files[0], sw) then [files[0]] else []) + Survivors(files[1..], sw)
  }

  /** The sweep keeps exactly the records that survive it. */
  lemma {:induction false} SurvivorsCharacterised(files: seq<FileRecord>, sw: Sweep)
    ensures forall i :: 0 <= i < |Survivors(files, sw)| ==>
      Survivors(files, sw)[i] in files && Survives(Survivors(files, sw)[i], sw)
    ensures forall i :: 0 <= i < |files| && Survives(files[i], sw) ==> files[i] in Survivors(files, sw)
  {
    if files != [] {
      SurvivorsCharacterised(files[1..], sw);
      var head := if Survives(files[0], sw) then [files[0]] else [];
      assert Survivors(files, sw) == head + Survivors(files[1..], sw);
      forall i | 0 <= i < |files| && Survives(files[i], sw) ensures files[i] in Survivors(files, sw) {
        if i > 0 {
          assert files[i] == files[1..][i - 1];
        }
      }
    }
  }

  /** The stored files the sweep deletes. */
  function Unlinked(files: seq<FileRecord>, sw: Sweep): (r: set<string>)
    ensures forall k :: k in r ==> k in sw.disk && k !in sw.unlinkFails
    decreases |files|
  {
    if files == [] then {}
    else
      var f := files[|files| - 1];
      Unlinked(files[..|files| - 1], sw) + (if Unlinks(f, sw) then {f.id} else {})
  }

  /** One step of the sweep's loop: what keeping or dropping record `i`
      does to the survivors still to come. */
  lemma SurvivorsAdvance(records: seq<FileRecord>, i: nat, sw: Sweep, kept: seq<FileRecord>)
    requires i < |records|
    requires kept + Survivors(records[i..], sw) == Survivors(records, sw)
    ensures Survives(records[i], sw) ==>
      (kept + [records[i]]) + Survivors(records[i + 1..], sw) == Survivors(records, sw)
    ensures !Survives(records[i], sw) ==> kept + Survivors(records[i + 1..], sw) == Survivors(records, sw)
  {
    assert records[i..][1..] == records[i + 1..];
    if Survives(records[i], sw) {
      assert Survivors(records[i..], sw) == [records[i]] + Survivors(records[i + 1..], sw);
    }
  }

  /** One step of the sweep's loop: what unlinking record `i`'s stored file,
      or not, does to the uploads directory. */
  lemma UnlinkedAdvance(records: seq<FileRecord>, i: nat, sw: Sweep, remaining: map<string, Bytes>)
    requires i < |records|
    requires remaining == sw.disk - Unlinked(records[..i], sw)
    ensures var f := records[i];
      Unlinks(f, sw) && f.id in remaining ==> remaining - {f.id} == sw.disk - Unlinked(records[..i + 1], sw)
    ensures var f := records[i];
      !(Unlinks(f, sw) && f.id in remaining) ==> remaining == sw.disk - Unlinked(records[..i + 1], sw)
    ensures var f := records[i];
      Expired(f, sw) ==>
        (f.id in remaining ==> (Unlinks(f, sw) <==> f.id !in sw.unlinkFails) &&
                               (Survives(f, sw) <==> f.id in sw.unlinkFails)) &&
        (f.id !in remaining ==> !Survives(f, sw))
  {
    var f := records[i];
    assert records[..i + 1][..i] == records[..i];
    var gone := Unlinked(records[..i], sw);
    assert Unlinked(records[..i + 1], sw) == gone + (if Unlinks(f, sw) then {f.id} else {});
    if Unlinks(f, sw) {
      assert sw.disk - (gone + {f.id}) == remaining - {f.id};
    }
    if Expired(f, sw) && f.id !in remaining && f.id in sw.disk {
      assert f.id in gone;
    }
  }

  /** The survivors of a concatenation are the survivors of each part, so
      the sweep keeps the records' order. */
  lemma {:induction false} SurvivorsAppend(a: seq<FileRecord>, b: seq<FileRecord>, sw: Sweep)
    ensures Survivors(a + b, sw) == Survivors(a, sw) + Survivors(b, sw)
  {
    if a == [] {
      assert a + b == b;
    } else {
      assert (a + b)[0] == a[0];
      assert (a + b)[1..] == a[1..] + b;
      SurvivorsAppend(a[1..], b, sw);
    }
  }

  lemma {:induction false} SurvivorsAll(files: seq<FileRecord>, sw: Sweep)
    requires forall i :: 0 <= i < |files| ==> Survives(files[i], sw)
    ensures Survivors(files, sw) == files
  {
    if files != [] {
      SurvivorsAll(files[1..], sw);
    }
  }

  lemma {:induction false} UnlinkedNone(files: seq<FileRecord>, sw: Sweep)
    requires forall i :: 0 <= i < |files| ==> Survives(files[i], sw)
    ensures Unlinked(files, sw) == {}
    decreases |files|
  {
    if files != [] {
      UnlinkedNone(files[..|files| - 1], sw);
    }
  }

  /** A second sweep at the same time, over what the first one left, removes
      and deletes nothing. */
  lemma SweepIdempotent(files: seq<FileRecord>, sw: Sweep)
    ensures var kept := Survivors(files, sw);
      var second := sw.(disk := sw.disk - Unlinked(files, sw));
      Survivors(kept, second) == kept && Unlinked(kept, second) == {}
  {
    var kept := Survivors(files, sw);
    var gone := Unlinked(files, sw);
    var second := sw.(disk := sw.disk - gone);
    SurvivorsCharacterised(files, sw);
    forall i | 0 <= i < |kept| ensures Survives(kept[i], second) {
      if Expired(kept[i], sw) {
        assert kept[i].id in sw.disk && kept[i].id in sw.unlinkFails;
        assert kept[i].id !in gone;
      }
    }
    SurvivorsAll(kept, second);
    UnlinkedNone(kept, second);
  }

  /** A record no older than the expiry time, or without a creation time, is
      kept; an older one is removed unless deleting its stored file fails. */
  lemma SweepDecision(f: FileRecord, sw: Sweep)
    ensures (f.createdAt.None? || sw.now - f.createdAt.value <= sw.expiryTime) ==> Survivors([f], sw) == [f]
    ensures (f.createdAt.Some? && sw.now - f.createdAt.value > sw.expiryTime &&
             !(f.id in sw.disk && f.id in sw.unlinkFails)) ==> Survivors([f], sw) == []
  {
    assert [f][1..] == [];
  }

  // ---------------------------------------------------------------------------
  // Replies.

  datatype AuthOutcome = Authenticated(index: nat, user: UserView) | AuthFailed(message: string)

  datatype AuthReply = AuthRejected(status: int, message: string) | AuthGranted(status: int, token: string, user: UserView)

  datatype UploadedFile = UploadedFile(originalname: string, content: Bytes)

  datatype UploadReply = UploadRejected(status: int, message: string) | Uploaded(record: FileRecord)

  datatype ListReply = Listed(files: seq<FileRecord>) | ListRejected(status: int, message: string)

  datatype DownloadReply =
    | DownloadRejected(status: int, message: string)
    | FileSent(body: Bytes, contentType: string, filename: string)

  datatype AddressReply = AddressRejected(status: int, message: string) | AddressSet(user: UserView)

  const HeaderMissing := "Authorization header missing"
  const BadTokenFormat := "Invalid token format"
  const UnknownUser := "User not found"
  const RegisterFieldsMissing := "Please provide username, email and password"
  const EmailTaken := "User already exists with this email"
  const LoginFieldsMissing := "Please provide email and password"
  const BadCredentials := "Invalid credentials"
  const TooLarge := "File too large. Maximum size is 50MB"
  const NoFileUploaded := "No file uploaded"
  const ReceiverRequired := "Receiver address is required"
  const PasscodeRequired := "Passcode is required"
  const WriteFailedPrefix := "Error encrypting file: "
  const NoAddress := "User does not have a blockchain address"
  const WrongPasscode := "Invalid passcode"
  const DecryptFailedMessage := "Failed to decrypt file. Invalid passcode or corrupted file."
  const AddressRequired := "Blockchain address is required"

  /** What a download serves when the stored file is missing or unreadable. */
  function MockContent(filename: string): Bytes {
    Utf8("Mock file content for " + filename)
  }

  /** The sender's address: the one on record, or a new random one. */
  function SenderAddress(u: User, addressBytes: Bytes): string {
    if Truthy(u.blockchainAddress) then u.blockchainAddress.value else "0x" + Hex(addressBytes)
  }

  /** The record an upload indexes: id Date.now(), the receiver address
      trimmed, the passcode kept as typed, transferred already, and expiring
      an hour after it is created. */
  function UploadRecord(u: User, file: UploadedFile, receiverAddress: string, passcode: string, now: nat,
                        addressBytes: Bytes, ipfsBytes: Bytes, txBytes: Bytes): FileRecord
  {
    FileRecord(NatToString(now), file.originalname, |file.content|, u.id, SenderAddress(u, addressBytes),
               Trim(receiverAddress), passcode, "ipfs-" + Hex(ipfsBytes), "0x" + Hex(txBytes),
               true, Some(now), now + OneHour)
  }

  /** Registered emails are pairwise distinct. */
  predicate DistinctEmails(users: seq<User>) {
    forall i, j :: 0 <= i < j < |users| ==> users[i].email != users[j].email
  }

  /** Every registered address is in lower case. */
  predicate LowerCaseAddresses(addresses: seq<string>) {
    forall i :: 0 <= i < |addresses| ==> ToLower(addresses[i]) == addresses[i]
  }

  /** Changing users' other fields keeps their emails distinct. */
  lemma EmailsKept(users: seq<User>, users': seq<User>)
    requires DistinctEmails(users)
    requires |users'| == |users| && forall j :: 0 <= j < |users| ==> users'[j].email == users[j].email
    ensures DistinctEmails(users')
  {
  }

  class Db {
    var users: seq<User>
    var files: seq<FileRecord>
    var addresses: seq<string>
    /** The uploads directory: stored packages by file id. */
    var disk: map<string, Bytes>

    /** Emails identify users, and the address list is kept in lower case. */
    ghost predicate Valid()
      reads this`users, this`addresses
    {
      DistinctEmails(users) && LowerCaseAddresses(addresses)
    }

    constructor ()
      ensures Valid()
      ensures users == [] && files == [] && addresses == [] && disk == map[]
    {
      users := [];
      files := [];
      addresses := [];
      disk := map[];
    }

    /** users.find(u => u.id === userId): the first user with that id. */
    function UserIndex(userId: Option<string>): (r: Option<nat>)
      reads this
      ensures r.Some? ==>
        (r.value < |users| && Some(users[r.value].id) == userId &&
         forall j :: 0 <= j < r.value ==> Some(users[j].id) != userId)
      ensures r.None? <==> forall j :: 0 <= j < |users| ==> Some(users[j].id) != userId
    {
      FirstIndex(users, (u: User) => Some(u.id) == userId)
    }

    /** authenticateToken. */
    function Authenticate(header: Option<string>): (r: AuthOutcome)
      reads this
      ensures !Truthy(header) ==> r == AuthFailed(HeaderMissing)
      ensures Truthy(header) && !Truthy(RawUserId(header)) ==> r == AuthFailed(BadTokenFormat)
      ensures r.AuthFailed? && Truthy(RawUserId(header)) && Truthy(header) ==>
        r.message == UnknownUser && forall i :: 0 <= i < |users| ==> Some(users[i].id) != RawUserId(header)
      ensures r.Authenticated? ==>
        (Truthy(header) && r.index < |users| && Some(users[r.index].id) == RawUserId(header) &&
         users[r.index].id != "" && r.user == View(users[r.index]) &&
         forall j :: 0 <= j < r.index ==> Some(users[j].id) != RawUserId(header))
    {
      if !Truthy(header) then AuthFailed(HeaderMissing)
      else
        var userId := RawUserId(header);
        if !Truthy(userId) then AuthFailed(BadTokenFormat)
        else match UserIndex(userId)
          case None => AuthFailed(UnknownUser)
          case Some(i) => Authenticated(i, View(users[i]))
    }

    /** POST /api/auth/register. The new id is Date.now() as a numeral. */
    method Register(username: Option<string>, email: Option<string>, password: Option<string>, now: nat)
      returns (reply: AuthReply)
      requires Valid()
      modifies this
      ensures Valid()
      ensures files == old(files) && addresses == old(addresses) && disk == old(disk)
      ensures !(Truthy(username) && Truthy(email) && Truthy(password)) ==>
        reply == AuthRejected(400, RegisterFieldsMissing) && users == old(users)
      ensures (Truthy(username) && Truthy(email) && Truthy(password) &&
               exists i :: 0 <= i < |old(users)| && old(users)[i].email == email.value) ==>
        reply == AuthRejected(400, EmailTaken) && users == old(users)
      ensures reply.AuthGranted? ==>
        var u := User(NatToString(now), username.value, email.value, password.value, None);
        users == old(users) + [u] && reply == AuthGranted(201, TokenFor(u.id), View(u))
      ensures reply.AuthGranted? <==>
        Truthy(username) && Truthy(email) && Truthy(password) &&
        forall i :: 0 <= i < |old(users)| ==> old(users)[i].email != email.value
    {
      if !Truthy(username) || !Truthy(email) || !Truthy(password) {
        return AuthRejected(400, RegisterFieldsMissing);
      }
      var existing := FirstIndex(users, (u: User) => u.email == email.value);
      if existing.Some? {
        return AuthRejected(400, EmailTaken);
      }
      var u := User(NatToString(now), username.value, email.value, password.value, None);
      users := users + [u];
      reply := AuthGranted(201, TokenFor(u.id), View(u));
    }

    /** POST /api/auth/login: the first user with that email and password. */
    function Login(email: Option<string>, password: Option<string>): (r: AuthReply)
      reads this
      ensures !(Truthy(email) && Truthy(password)) ==> r == AuthRejected(400, LoginFieldsMissing)
      ensures Truthy(email) && Truthy(password) ==>
        (r == AuthRejected(401, BadCredentials) <==>
         forall i :: 0 <= i < |users| ==> !(users[i].email == email.value && users[i].password == password.value))
      ensures r.AuthGranted? ==>
        exists i :: 0 <= i < |users| && users[i].email == email.value && users[i].password == password.value &&
          r == AuthGranted(200, TokenFor(users[i].id), View(users[i]))
    {
      if !Truthy(email) || !Truthy(password) then AuthRejected(400, LoginFieldsMissing)
      else match FirstIndex(users, (u: User) => u.email == email.value && u.password == password.value)
        case None => AuthRejected(401, BadCredentials)
        case Some(i) => AuthGranted(200, TokenFor(users[i].id), View(users[i]))
    }

    /** The state after storing an upload for the user at `i`, given the
        state before, and its reply. The record stays indexed even when
        writing the package fails. */
    ghost predicate StoredUpload(p: Primitives, users0: seq<User>, addresses0: seq<string>,
                                 files0: seq<FileRecord>, disk0: map<string, Bytes>, i: nat,
                                 file: UploadedFile, receiverAddress: string, passcode: string, now: nat,
                                 addressBytes: Bytes, ipfsBytes: Bytes, txBytes: Bytes, iv: Block,
                                 writeError: Option<string>, reply: UploadReply)
      reads this
    {
      i < |users0| &&
      var u := users0[i];
      var senderAddress := SenderAddress(u, addressBytes);
      var record := UploadRecord(u, file, receiverAddress, passcode, now, addressBytes, ipfsBytes, txBytes);
      users == users0[i := u.(blockchainAddress := Some(senderAddress))] &&
      addresses == (if Truthy(u.blockchainAddress) then addresses0 else addresses0 + [ToLower(senderAddress)]) &&
      files == files0 + [record] &&
      if writeError.None?
      then reply == Uploaded(record) && disk == disk0[record.id := ServerEncrypt(p, file.content, passcode, iv)]
      else reply == UploadRejected(500, WriteFailedPrefix + writeError.value) && disk == disk0
    }

    /** The upload passes authentication and every request check. */
    predicate UploadAccepted(header: Option<string>, file: Option<UploadedFile>,
                             receiverAddress: Option<string>, passcode: Option<string>)
      reads this
    {
      Authenticate(header).Authenticated? && file.Some? && |file.value.content| <= MaxUploadBytes &&
      Truthy(receiverAddress) && Truthy(passcode)
    }

    /** POST /api/files/upload, after authenticateToken. `addressBytes`,
        `ipfsBytes`, `txBytes` and `iv` are the random bytes drawn;
        `writeError` is the message writeFileSync throws, if it does. */
    method Upload(p: Primitives, header: Option<string>, file: Option<UploadedFile>,
                  receiverAddress: Option<string>, passcode: Option<string>, now: nat,
                  addressBytes: Bytes, ipfsBytes: Bytes, txBytes: Bytes, iv: Block,
                  writeError: Option<string>)
      returns (reply: UploadReply)
      requires Valid()
      requires |addressBytes| == 6 && |ipfsBytes| == 16 && |txBytes| == 32
      modifies this
      ensures Valid()
      ensures old(Authenticate(header)).AuthFailed? ==>
        reply == UploadRejected(401, old(Authenticate(header)).message)
      ensures (old(Authenticate(header)).Authenticated? && file.Some? && |file.value.content| > MaxUploadBytes) ==>
        reply == UploadRejected(400, TooLarge)
      ensures (old(Authenticate(header)).Authenticated? && file.None?) ==> reply == UploadRejected(400, NoFileUploaded)
      ensures (old(Authenticate(header)).Authenticated? && file.Some? && |file.value.content| <= MaxUploadBytes &&
               !Truthy(receiverAddress)) ==> reply == UploadRejected(400, ReceiverRequired)
      ensures (old(Authenticate(header)).Authenticated? && file.Some? && |file.value.content| <= MaxUploadBytes &&
               Truthy(receiverAddress) && !Truthy(passcode)) ==> reply == UploadRejected(400, PasscodeRequired)
      ensures !old(UploadAccepted(header, file, receiverAddress, passcode)) ==> unchanged(this)
      ensures old(UploadAccepted(header, file, receiverAddress, passcode)) ==>
        var i := old(Authenticate(header)).index;
        StoredUpload(p, old(users), old(addresses), old(files), old(disk), i, file.value, receiverAddress.value,
                     passcode.value, now, addressBytes, ipfsBytes, txBytes, iv, writeError, reply)
    {
      var auth := Authenticate(header);
      if auth.AuthFailed? {
        return UploadRejected(401, auth.message);
      }
      if file.Some? && |file.value.content| > MaxUploadBytes {
        return UploadRejected(400, TooLarge);
      }
      if file.None? {
        return UploadRejected(400, NoFileUploaded);
      }
      if !Truthy(receiverAddress) {
        return UploadRejected(400, ReceiverRequired);
      }
      if !Truthy(passcode) {
        return UploadRejected(400, PasscodeRequired);
      }
      reply := StoreUpload(p, auth.index, file.value, receiverAddress.value, passcode.value, now,
                           addressBytes, ipfsBytes, txBytes, iv, writeError);
    }

    /** The storing half of the upload handler, for the authenticated user at
        `i`: give the sender an address if they have none (registering it in
        lower case), index the record, then write the encrypted package. */
    method StoreUpload(p: Primitives, i: nat, file: UploadedFile, receiverAddress: string, passcode: string,
                       now: nat, addressBytes: Bytes, ipfsBytes: Bytes, txBytes: Bytes, iv: Block,
                       writeError: Option<string>)
      returns (reply: UploadReply)
      requires Valid() && i < |users|
      modifies this
      ensures Valid()
      ensures StoredUpload(p, old(users), old(addresses), old(files), old(disk), i, file, receiverAddress,
                           passcode, now, addressBytes, ipfsBytes, txBytes, iv, writeError, reply)
    {
      var user := users[i];
      var record := UploadRecord(user, file, receiverAddress, passcode, now, addressBytes, ipfsBytes, txBytes);
      var senderAddress := SenderAddress(user, addressBytes);
      var addresses' := addresses;
      if !Truthy(user.blockchainAddress) {
        ToLowerIdempotent(senderAddress);
        addresses' := addresses + [ToLower(senderAddress)];
      }
      var users' := users[i := user.(blockchainAddress := Some(senderAddress))];
      EmailsKept(users, users');
      users, addresses, files := users', addresses', files + [record];
      if writeError.Some? {
        reply := UploadRejected(500, WriteFailedPrefix + writeError.value);
      } else {
        disk := disk[record.id := ServerEncrypt(p, file.content, passcode, iv)];
        reply := Uploaded(record);
      }
    }

    /** GET /api/files/sent: no authentication; the records whose sender is
        the id the header carries, in the order they were stored. */
    function SentFiles(header: Option<string>): (r: seq<FileRecord>)
      reads this
      ensures forall i :: 0 <= i < |r| ==> r[i] in files && Some(r[i].sender) == RawUserId(header)
      ensures forall i :: 0 <= i < |files| && Some(files[i].sender) == RawUserId(header) ==> files[i] in r
      ensures r == SentBy(files, RawUserId(header))
    {
      SentBy(files, RawUserId(header))
    }

    /** GET /api/files/received: no authentication; the first user with the
        id the header names must exist and have an address, and addresses
        are compared after trimming and lowercasing both sides. */
    function ReceivedFiles(header: Option<string>): (r: ListReply)
      reads this
      ensures r.ListRejected? ==>
        r == ListRejected(404, UnknownUser) || r == ListRejected(400, NoAddress)
      ensures r == ListRejected(404, UnknownUser) <==>
        forall i :: 0 <= i < |users| ==> Some(users[i].id) != RawUserId(header)
      ensures r == ListRejected(400, NoAddress) <==>
        UserIndex(RawUserId(header)).Some? && !Truthy(users[UserIndex(RawUserId(header)).value].blockchainAddress)
      ensures r.Listed? ==>
        UserIndex(RawUserId(header)).Some? &&
        var u := users[UserIndex(RawUserId(header)).value];
        Truthy(u.blockchainAddress) &&
        (forall k :: 0 <= k < |r.files| ==> r.files[k] in files && ReceivedBy(r.files[k], u.blockchainAddress.value)) &&
        (forall k :: 0 <= k < |files| && ReceivedBy(files[k], u.blockchainAddress.value) ==> files[k] in r.files) &&
        r.files == ReceivedAt(files, u.blockchainAddress.value)
    {
      match UserIndex(RawUserId(header))
      case None => ListRejected(404, UnknownUser)
      case Some(i) =>
        var address := users[i].blockchainAddress;
        if !Truthy(address) then ListRejected(400, NoAddress)
        else Listed(ReceivedAt(files, address.value))
    }

    /** fileRecords.find(f => f.id && f.id === fileId): the first record
        with that non-empty id. */
    function FileIndex(fileId: string): (r: Option<nat>)
      reads this
      ensures r.Some? ==>
        (r.value < |files| && files[r.value].id != "" && files[r.value].id == fileId &&
         forall j :: 0 <= j < r.value ==> !(files[j].id != "" && files[j].id == fileId))
      ensures r.None? <==> forall j :: 0 <= j < |files| ==> !(files[j].id != "" && files[j].id == fileId)
    {
      FirstIndex(files, (f: FileRecord) => f.id != "" && f.id == fileId)
    }

    /** POST /api/files/download/:fileId. `readable` says whether reading an
        existing stored file succeeds. */
    function Download(p: Primitives, header: Option<string>, fileId: string, passcode: Option<string>,
                      readable: bool): (r: DownloadReply)
      reads this
      ensures Authenticate(header).AuthFailed? ==> r == DownloadRejected(401, Authenticate(header).message)
      ensures Authenticate(header).Authenticated? && !Truthy(passcode) ==> r == DownloadRejected(400, PasscodeRequired)
      ensures (Authenticate(header).Authenticated? && Truthy(passcode) &&
               forall i :: 0 <= i < |files| ==> !(files[i].id != "" && files[i].id == fileId)) ==>
        r == DownloadRejected(404, "File not found")
      ensures r.FileSent? ==>
        exists i :: 0 <= i < |files| && files[i].id == fileId && files[i].passcode == passcode.value &&
          r.filename == files[i].filename && r.contentType == MimeType(files[i].filename) &&
          Some(r.body) == ServerDecrypt(p, if fileId in disk && readable then disk[fileId] else MockContent(files[i].filename),
                                        passcode.value)
      ensures Authenticate(header).Authenticated? && Truthy(passcode) && FileIndex(fileId).Some? ==>
        var file := files[FileIndex(fileId).value];
        var fileData := if fileId in disk && readable then disk[fileId] else MockContent(file.filename);
        (file.passcode != passcode.value <==> r == DownloadRejected(403, WrongPasscode)) &&
        (file.passcode == passcode.value && ServerDecrypt(p, fileData, passcode.value).None? ==>
           r == DownloadRejected(500, DecryptFailedMessage)) &&
        (file.passcode == passcode.value && ServerDecrypt(p, fileData, passcode.value).Some? ==>
           r == FileSent(ServerDecrypt(p, fileData, passcode.value).value, MimeType(file.filename), file.filename))
    {
      var auth := Authenticate(header);
      if auth.AuthFailed? then DownloadRejected(401, auth.message)
      else if !Truthy(passcode) then DownloadRejected(400, PasscodeRequired)
      else match FileIndex(fileId)
        case None => DownloadRejected(404, "File not found")
        case Some(i) =>
          var file := files[i];
          if file.passcode != passcode.value then DownloadRejected(403, WrongPasscode)
          else
            var fileData := if file.id in disk && readable then disk[file.id] else MockContent(file.filename);
            match ServerDecrypt(p, fileData, passcode.value)
            case None => DownloadRejected(500, DecryptFailedMessage)
            case Some(plain) => FileSent(plain, MimeType(file.filename), file.filename)
    }

    /** cleanupExpiredFiles(expiryTime) at time `now`. `unlinkFails` holds
        the stored files whose unlinkSync throws. Returns cleanupCount. */
    method CleanupExpiredFiles(expiryTime: int, now: int, unlinkFails: set<string>) returns (count: nat)
      modifies this
      ensures var sw := Sweep(now, expiryTime, old(disk), unlinkFails);
        files == Survivors(old(files), sw) && disk == old(disk) - Unlinked(old(files), sw)
      ensures count == |old(files)| - |files|
      ensures users == old(users) && addresses == old(addresses)
    {
      var records := files;
      var remaining := disk;
      ghost var sw := Sweep(now, expiryTime, disk, unlinkFails);
      var kept: seq<FileRecord> := [];
      count := 0;
      var i := 0;
      while i < |records|
        invariant 0 <= i <= |records| && users == old(users) && addresses == old(addresses)
        invariant kept + Survivors(records[i..], sw) == Survivors(records, sw)
        invariant count + |kept| == i
        invariant remaining == sw.disk - Unlinked(records[..i], sw)
      {
        var file := records[i];
        SurvivorsAdvance(records, i, sw, kept);
        UnlinkedAdvance(records, i, sw, remaining);
        if file.createdAt.None? {
          kept := kept + [file];
        } else if now - file.createdAt.value > expiryTime {
          if file.id in remaining {
            if file.id in unlinkFails {
              kept := kept + [file];
            } else {
              remaining := remaining - {file.id};
              count := count + 1;
            }
          } else {
            count := count + 1;
          }
        } else {
          kept := kept + [file];
        }
        i := i + 1;
      }
      assert records[i..] == [];
      assert records[..i] == records;
      files := kept;
      disk := remaining;
    }

    /** The lookup and update behind /api/user/blockchain-address, for the
        user id the handler uses. */
    method SetAddressFor(userId: Option<string>, blockchainAddress: Option<string>) returns (reply: AddressReply)
      requires Valid()
      modifies this
      ensures Valid()
      ensures files == old(files) && disk == old(disk)
      ensures old(UserIndex(userId)).None? ==> reply == AddressRejected(404, UnknownUser) && unchanged(this)
      ensures old(UserIndex(userId)).Some? && !Truthy(blockchainAddress) ==>
        reply == AddressRejected(400, AddressRequired) && unchanged(this)
      ensures old(UserIndex(userId)).Some? && Truthy(blockchainAddress) ==>
        var i := old(UserIndex(userId)).value;
        var formatted := Trim(blockchainAddress.value);
        users == old(users)[i := old(users)[i].(blockchainAddress := Some(formatted))] &&
        reply == AddressSet(View(users[i])) &&
        addresses == (if ToLower(formatted) in old(addresses) then old(addresses)
                      else old(addresses) + [ToLower(formatted)])
    {
      var found := UserIndex(userId);
      if found.None? {
        return AddressRejected(404, UnknownUser);
      }
      if !Truthy(blockchainAddress) {
        return AddressRejected(400, AddressRequired);
      }
      var i := found.value;
      var formatted := Trim(blockchainAddress.value);
      users := users[i := users[i].(blockchainAddress := Some(formatted))];
      var lower := ToLower(formatted);
      ToLowerIdempotent(formatted);
      if lower !in addresses {
        addresses := addresses + [lower];
      }
      reply := AddressSet(View(users[i]));
    }

    /** POST /api/user/blockchain-address as written: the handler looks the
        user up by `req.userId`, which authenticateToken never sets, so no
        user is ever found and nothing is ever stored. */
    method SetBlockchainAddressAsWritten(header: Option<string>, blockchainAddress: Option<string>)
      returns (reply: AddressReply)
      requires Valid()
      modifies this
      ensures Valid() && unchanged(this)
      ensures old(Authenticate(header)).AuthFailed? ==>
        reply == AddressRejected(401, old(Authenticate(header)).message)
      ensures old(Authenticate(header)).Authenticated? ==> reply == AddressRejected(404, UnknownUser)
    {
      var auth := Authenticate(header);
      if auth.AuthFailed? {
        return AddressRejected(401, auth.message);
      }
      var requestUserId: Option<string> := None;
      reply := SetAddressFor(requestUserId, blockchainAddress);
    }

    /** The same route reading the authenticated user's id, as intended. */
    method SetBlockchainAddress(header: Option<string>, blockchainAddress: Option<string>)
      returns (reply: AddressReply)
      requires Valid()
      modifies this
      ensures Valid()
      ensures files == old(files) && disk == old(disk)
      ensures old(Authenticate(header)).AuthFailed? ==>
        reply == AddressRejected(401, old(Authenticate(header)).message) && unchanged(this)
      ensures old(Authenticate(header)).Authenticated? && !Truthy(blockchainAddress) ==>
        reply == AddressRejected(400, AddressRequired) && unchanged(this)
      ensures old(Authenticate(header)).Authenticated? && Truthy(blockchainAddress) ==>
        var i := old(Authenticate(header)).index;
        var formatted := Trim(blockchainAddress.value);
        users == old(users)[i := old(users)[i].(blockchainAddress := Some(formatted))] &&
        reply == AddressSet(View(users[i])) &&
        addresses == (if ToLower(formatted) in old(addresses) then old(addresses)
                      else old(addresses) + [ToLower(formatted)])
    {
      var auth := Authenticate(header);
      if auth.AuthFailed? {
        return AddressRejected(401, auth.message);
      }
      reply := SetAddressFor(RawUserId(header), blockchainAddress);
    }
  }

  /** Any authenticated user who gives its passcode receives a stored
      record's original bytes, whoever the record is addressed to and however
      many records the store holds; an empty passcode is refused with 400 and
      any other wrong one with 403. */
  lemma DownloadOfStored(db: Db, p: Primitives, header: Option<string>, i: nat, content: Bytes,
                         iv: Block, other: string)
    requires Inverts(p)
    requires db.Authenticate(header).Authenticated?
    requires i < |db.files| && db.FileIndex(db.files[i].id) == Some(i)
    requires var record := db.files[i];
      record.id in db.disk && db.disk[record.id] == ServerEncrypt(p, content, record.passcode, iv)
    ensures var record := db.files[i];
      record.passcode != "" ==>
        db.Download(p, header, record.id, Some(record.passcode), true) ==
        FileSent(content, MimeType(record.filename), record.filename)
    ensures other == "" ==>
      db.Download(p, header, db.files[i].id, Some(other), true) == DownloadRejected(400, PasscodeRequired)
    ensures other != "" && other != db.files[i].passcode ==>
      db.Download(p, header, db.files[i].id, Some(other), true) == DownloadRejected(403, WrongPasscode)
  {
    var record := db.files[i];
    ServerCryptoRoundTrip(p, content, record.passcode, iv);
  }

  /** Two users register, and the first logs in. */
  method TwoUsers(t1: nat, t2: nat) returns (db: Db, login: AuthReply)
    requires t1 != t2
    ensures fresh(db) && db.Valid()
    ensures db.users == [User(NatToString(t1), "alice", "alice@example.com", "alice-pw", None),
                         User(NatToString(t2), "bob", "bob@example.com", "bob-pw", None)]
    ensures db.files == [] && db.disk == map[]
    ensures login.AuthGranted? && login.token == TokenFor(NatToString(t1))
  {
    db := new Db();
    var first := db.Register(Some("alice"), Some("alice@example.com"), Some("alice-pw"), t1);
    var second := db.Register(Some("bob"), Some("bob@example.com"), Some("bob-pw"), t2);
    var id1, id2 := NatToString(t1), NatToString(t2);
    assert db.users == [User(id1, "alice", "alice@example.com", "alice-pw", None),
                        User(id2, "bob", "bob@example.com", "bob-pw", None)];
    login := db.Login(Some("alice@example.com"), Some("alice-pw"));
    assert db.users[1].email != "alice@example.com";
  }

  /** Two users register and the first logs in and uploads a file; the
      second user, whoever the file is addressed to, downloads the original
      bytes with the passcode, and is refused with any other passcode. */
  method RelayScenario(p: Primitives, t1: nat, t2: nat, t3: nat, file: UploadedFile, receiverAddress: string,
                       passcode: string, other: string, addressBytes: Bytes, ipfsBytes: Bytes, txBytes: Bytes,
                       iv: Block)
    returns (login: AuthReply, sent: UploadReply, fetched: DownloadReply, refused: DownloadReply)
    requires Inverts(p)
    requires t1 != t2 && |file.content| <= MaxUploadBytes
    requires receiverAddress != "" && passcode != "" && other != "" && other != passcode
    requires |addressBytes| == 6 && |ipfsBytes| == 16 && |txBytes| == 32
    ensures login.AuthGranted? && login.token == TokenFor(NatToString(t1))
    ensures sent.Uploaded? && sent.record.id == NatToString(t3) && sent.record.sender == NatToString(t1)
    ensures sent.record.receiverAddress == Trim(receiverAddress) && sent.record.passcode == passcode
    ensures fetched == FileSent(file.content, MimeType(file.originalname), file.originalname)
    ensures refused == DownloadRejected(403, WrongPasscode)
  {
    var db;
    db, login := TwoUsers(t1, t2);
    var id1, id2 := NatToString(t1), NatToString(t2);
    IssuedTokenRoundTrip(t1);
    IssuedTokenRoundTrip(t2);
    if id1 == id2 {
      NatToStringInjective(t1, t2);
    }
    assert db.UserIndex(Some(id1)) == Some(0);
    assert db.UploadAccepted(Some(TokenFor(id1)), Some(file), Some(receiverAddress), Some(passcode));
    sent := db.Upload(p, Some(TokenFor(id1)), Some(file), Some(receiverAddress), Some(passcode), t3,
                      addressBytes, ipfsBytes, txBytes, iv, None);
    var record := sent.record;
    assert db.files == [record];
    assert db.disk == map[NatToString(t3) := ServerEncrypt(p, file.content, passcode, iv)];
    assert |db.users| == 2 && db.users[0].id == id1 && db.users[1].id == id2;
    assert db.UserIndex(Some(id2)) == Some(1);
    assert db.FileIndex(record.id) == Some(0);
    DownloadOfStored(db, p, Some(TokenFor(id2)), 0, file.content, iv, other);
    fetched := db.Download(p, Some(TokenFor(id2)), NatToString(t3), Some(passcode), true);
    refused := db.Download(p, Some(TokenFor(id2)), NatToString(t3), Some(other), true);
  }

  /** The address route as written refuses a registered, authenticated user
      with 404; the corrected route stores the trimmed address. */
  method AddressScenario(t: nat, address: string) returns (asWritten: AddressReply, corrected: AddressReply)
    requires address != ""
    ensures asWritten == AddressRejected(404, UnknownUser)
    ensures corrected.AddressSet? && corrected.user.blockchainAddress == Some(Trim(address))
  {
    var db := new Db();
    var registered := db.Register(Some("carol"), Some("carol@example.com"), Some("carol-pw"), t);
    IssuedTokenRoundTrip(t);
    assert db.UserIndex(Some(NatToString(t))) == Some(0);
    asWritten := db.SetBlockchainAddressAsWritten(Some(TokenFor(NatToString(t))), Some(address));
    corrected := db.SetBlockchainAddress(Some(TokenFor(NatToString(t))), Some(address));
  }
}
