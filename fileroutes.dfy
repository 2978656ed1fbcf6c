/** The Mongo-backed file routes: upload (hash, encrypt, store the package in
    IPFS, anchor it on the ledger, create the File document), download
    (ordered checks, then decrypt and mark transferred), and the sent,
    received and detail projections.

    The File collection, the IPFS blob store and the ledger are the fields of
    `FileService`. What IPFS and the ledger answer (the hash they assign, or
    a failure) is passed in, as are the random IV, the new document id and
    the clock. */
module FileRoutes {
  import opened Common
  import opened Crypto
  import Passcode
  import Encryption
  import opened FileModel

  /** req.user after the authenticate middleware: the user's ObjectId and
      blockchain address. */
  datatype Caller = Caller(id: string, blockchainAddress: string)

  /** The in-memory upload multer leaves in req.file. */
  datatype UploadedFile = UploadedFile(originalname: string, mimetype: string, size: int, buffer: Bytes)

  /** What storeFileOnBlockchain records. */
  datatype Anchor = Anchor(
    fileHash: string, ipfsHash: string, passcodeHash: string,
    receiverAddress: string, transactionHash: string)

  datatype UploadReply = UploadRejected(status: int, message: string) | UploadCreated(doc: FileDoc)

  datatype DownloadReply =
    | DownloadRejected(status: int, message: string)
    | FileSent(body: Bytes, contentType: string, attachmentName: string)

  const NoFileMessage := "Please upload a file"
  const BadPasscodeMessage := "Please provide a valid 6-digit passcode"
  const NoReceiverMessage := "Please provide a receiver address"
  const IpfsStoreMessage := "Failed to store file on IPFS"
  const LedgerMessage := "Failed to store on blockchain"
  const ServerErrorMessage := "Server error"
  const NotFoundMessage := "File not found"
  const NotReceiverMessage := "Not authorized to access this file"
  const WrongPasscodeMessage := "Invalid passcode"
  const IpfsRetrieveMessage := "Failed to retrieve from IPFS"
  const DecryptMessage := "Failed to decrypt file"

  /** `passcode && validatePasscodeFormat(passcode)`. */
  predicate PasscodeAccepted(passcode: Option<string>) {
    Truthy(passcode) && Passcode.ValidatePasscodeFormat(passcode.value)
  }

  /** The early checks of upload, in the handler's order. */
  predicate UploadInputsOk(file: Option<UploadedFile>, passcode: Option<string>, receiverAddress: Option<string>) {
    file.Some? && PasscodeAccepted(passcode) && Truthy(receiverAddress)
  }

  /** The values upload passes to File.create. */
  function UploadedDoc(p: Primitives, caller: Caller, file: UploadedFile, passcode: string,
                       receiverAddress: string, ipfsHash: string, txHash: string): NewFile
  {
    NewFile(Some(file.originalname), Some(file.originalname), Some(file.mimetype), Some(file.size),
            Some(ipfsHash), Some(txHash), Some(Encryption.HashFile(p, file.buffer)),
            Some(Passcode.HashPasscode(p, passcode)), Some(caller.id), Some(receiverAddress),
            None, None)
  }

  /** encryptFile's package for an upload (it cannot fail on a present buffer
      and passcode). */
  function UploadPackage(p: Primitives, file: UploadedFile, passcode: string, iv: Block): (pkg: Bytes)
    ensures |pkg| >= Encryption.IvLength && pkg[..Encryption.IvLength] == iv
  {
    Encryption.EncryptFile(p, Some(file.buffer), Some(passcode), iv).encryptedBuffer
  }

  /** findById, then the first document with that id marked transferred. */
  function MarkTransferred(docs: seq<FileDoc>, id: string): (r: seq<FileDoc>)
    ensures |r| == |docs|
    ensures forall i :: 0 <= i < |docs| && docs[i].id != id ==> r[i] == docs[i]
    ensures FindById(docs, id).Some? ==> FindById(r, id) == Some(FindById(docs, id).value.(isTransferred := true))
    ensures FindById(docs, id).None? ==> r == docs
  {
    match IndexOfId(docs, id)
    case None => docs
    case Some(i) =>
      var r := docs[i := docs[i].(isTransferred := true)];
      assert IndexOfId(r, id) == Some(i) by {
        IndexOfIdPointwise(docs, r, id, i);
      }
      r
  }

  lemma IndexOfIdPointwise(docs: seq<FileDoc>, r: seq<FileDoc>, id: string, i: nat)
    requires |r| == |docs| && i < |docs|
    requires IndexOfId(docs, id) == Some(i)
    requires forall j :: 0 <= j < |docs| ==> r[j].id == docs[j].id
    ensures IndexOfId(r, id) == Some(i)
  {
    assert r[i].id == id;
    var n := IndexOfId(r, id).value;
    assert docs[n].id == r[n].id == id;
    assert i <= n;
    assert n <= i;
  }

  /** The download handler's answer for a given state of the stores. */
  function DownloadOutcome(p: Primitives, docs: seq<FileDoc>, blobs: map<string, Bytes>,
                           caller: Caller, fileId: string, passcode: Option<string>): (r: DownloadReply)
    ensures r.FileSent? ==>
      (PasscodeAccepted(passcode) && FindById(docs, fileId).Some? &&
       FindById(docs, fileId).value.receiverAddress == caller.blockchainAddress &&
       Passcode.ComparePasscode(p, passcode.value, FindById(docs, fileId).value.passcodeHash) &&
       FindById(docs, fileId).value.ipfsHash in blobs &&
       r.contentType == FindById(docs, fileId).value.mimeType &&
       r.attachmentName == FindById(docs, fileId).value.originalName)
  {
    if !PasscodeAccepted(passcode) then DownloadRejected(400, BadPasscodeMessage)
    else match FindById(docs, fileId)
      case None => DownloadRejected(404, NotFoundMessage)
      case Some(doc) =>
        if doc.receiverAddress != caller.blockchainAddress then DownloadRejected(403, NotReceiverMessage)
        else if !Passcode.ComparePasscode(p, passcode.value, doc.passcodeHash) then DownloadRejected(401, WrongPasscodeMessage)
        else if doc.ipfsHash !in blobs then DownloadRejected(500, IpfsRetrieveMessage)
        else match Encryption.DecryptFile(p, Some(blobs[doc.ipfsHash]), passcode)
          case DecryptFailed(_) => DownloadRejected(500, DecryptMessage)
          case Decrypted(plain) => FileSent(plain, doc.mimeType, doc.originalName)
  }

  class FileService {
    /** The File collection. */
    var docs: seq<FileDoc>
    /** IPFS: stored packages by content hash. */
    var blobs: map<string, Bytes>
    /** The ledger: one anchor per recorded upload, oldest first. */
    var ledger: seq<Anchor>

    /** Document ids are unique, and every stored passcode is a hash. */
    ghost predicate Valid()
      reads this
    {
      (forall i, j :: 0 <= i < j < |docs| ==> docs[i].id != docs[j].id) &&
      (forall i :: 0 <= i < |docs| ==> IsHexDigest(docs[i].passcodeHash))
    }

    constructor ()
      ensures Valid()
      ensures docs == [] && blobs == map[] && ledger == []
    {
      docs := [];
      blobs := map[];
      ledger := [];
    }

    /** POST /upload. `ipfsOutcome` and `anchorOutcome` are the hash IPFS
        assigned and the ledger's transaction hash, or None when that store
        failed; `newId` is the ObjectId File.create assigns. */
    method Upload(p: Primitives, caller: Caller, file: Option<UploadedFile>, passcode: Option<string>,
                  receiverAddress: Option<string>, iv: Block, ipfsOutcome: Option<string>,
                  anchorOutcome: Option<string>, newId: string, now: int)
      returns (reply: UploadReply)
      requires Valid()
      requires forall i :: 0 <= i < |docs| ==> docs[i].id != newId
      modifies this
      ensures Valid()
      ensures file.None? ==> reply == UploadRejected(400, NoFileMessage)
      ensures file.Some? && !PasscodeAccepted(passcode) ==> reply == UploadRejected(400, BadPasscodeMessage)
      ensures file.Some? && PasscodeAccepted(passcode) && !Truthy(receiverAddress) ==>
        reply == UploadRejected(400, NoReceiverMessage)
      ensures !UploadInputsOk(file, passcode, receiverAddress) || ipfsOutcome.None? ==>
        blobs == old(blobs) && ledger == old(ledger) && docs == old(docs)
      ensures UploadInputsOk(file, passcode, receiverAddress) && ipfsOutcome.None? ==>
        reply == UploadRejected(500, IpfsStoreMessage)
      ensures UploadInputsOk(file, passcode, receiverAddress) && ipfsOutcome.Some? ==>
        blobs == old(blobs)[ipfsOutcome.value := UploadPackage(p, file.value, passcode.value, iv)]
      ensures UploadInputsOk(file, passcode, receiverAddress) && ipfsOutcome.Some? && anchorOutcome.None? ==>
        reply == UploadRejected(500, LedgerMessage) && ledger == old(ledger) && docs == old(docs)
      ensures UploadInputsOk(file, passcode, receiverAddress) && ipfsOutcome.Some? && anchorOutcome.Some? ==>
        ledger == old(ledger) + [Anchor(Encryption.HashFile(p, file.value.buffer), ipfsOutcome.value,
                                        Passcode.HashPasscode(p, passcode.value), receiverAddress.value,
                                        anchorOutcome.value)]
      ensures reply.UploadCreated? <==>
        UploadInputsOk(file, passcode, receiverAddress) && ipfsOutcome.Some? && anchorOutcome.Some? &&
        Create(UploadedDoc(p, caller, file.value, passcode.value, receiverAddress.value,
                           ipfsOutcome.value, anchorOutcome.value), newId, now).Created?
      ensures reply.UploadCreated? ==>
        reply.doc == Create(UploadedDoc(p, caller, file.value, passcode.value, receiverAddress.value,
                                        ipfsOutcome.value, anchorOutcome.value), newId, now).doc &&
        docs == old(docs) + [reply.doc]
      ensures !reply.UploadCreated? ==> docs == old(docs)
      ensures (UploadInputsOk(file, passcode, receiverAddress) && ipfsOutcome.Some? && anchorOutcome.Some? &&
               reply.UploadRejected?) ==> reply == UploadRejected(500, ServerErrorMessage)
    {
      if file.None? {
        return UploadRejected(400, NoFileMessage);
      }
      if !PasscodeAccepted(passcode) {
        return UploadRejected(400, BadPasscodeMessage);
      }
      if !Truthy(receiverAddress) {
        return UploadRejected(400, NoReceiverMessage);
      }
      reply := Publish(p, caller, file.value, passcode.value, receiverAddress.value, iv,
                       ipfsOutcome, anchorOutcome, newId, now);
    }

    /** The storing half of upload, once its checks have passed: hash and
        encrypt, store the package in IPFS, anchor it on the ledger, then
        create the document. A failed step leaves what earlier steps stored. */
    method Publish(p: Primitives, caller: Caller, file: UploadedFile, code: string, receiverAddress: string,
                   iv: Block, ipfsOutcome: Option<string>, anchorOutcome: Option<string>, newId: string, now: int)
      returns (reply: UploadReply)
      requires Valid()
      requires forall i :: 0 <= i < |docs| ==> docs[i].id != newId
      modifies this
      ensures Valid()
      ensures ipfsOutcome.None? ==>
        reply == UploadRejected(500, IpfsStoreMessage) &&
        blobs == old(blobs) && ledger == old(ledger) && docs == old(docs)
      ensures ipfsOutcome.Some? ==> blobs == old(blobs)[ipfsOutcome.value := UploadPackage(p, file, code, iv)]
      ensures ipfsOutcome.Some? && anchorOutcome.None? ==>
        reply == UploadRejected(500, LedgerMessage) && ledger == old(ledger) && docs == old(docs)
      ensures ipfsOutcome.Some? && anchorOutcome.Some? ==>
        ledger == old(ledger) + [Anchor(Encryption.HashFile(p, file.buffer), ipfsOutcome.value,
                                        Passcode.HashPasscode(p, code), receiverAddress, anchorOutcome.value)]
      ensures reply.UploadCreated? <==>
        ipfsOutcome.Some? && anchorOutcome.Some? &&
        Create(UploadedDoc(p, caller, file, code, receiverAddress, ipfsOutcome.value, anchorOutcome.value),
               newId, now).Created?
      ensures reply.UploadCreated? ==>
        reply.doc == Create(UploadedDoc(p, caller, file, code, receiverAddress, ipfsOutcome.value,
                                        anchorOutcome.value), newId, now).doc &&
        docs == old(docs) + [reply.doc]
      ensures !reply.UploadCreated? ==> docs == old(docs)
      ensures (ipfsOutcome.Some? && anchorOutcome.Some? && reply.UploadRejected?) ==>
        reply == UploadRejected(500, ServerErrorMessage)
    {
      var passcodeHash := Passcode.HashPasscode(p, code);
      var encrypted := Encryption.EncryptFile(p, Some(file.buffer), Some(code), iv);
      var package := encrypted.encryptedBuffer;
      var fileHash := Encryption.HashFile(p, file.buffer);
      if ipfsOutcome.None? {
        return UploadRejected(500, IpfsStoreMessage);
      }
      var ipfsHash := ipfsOutcome.value;
      blobs := blobs[ipfsHash := package];
      if anchorOutcome.None? {
        return UploadRejected(500, LedgerMessage);
      }
      var txHash := anchorOutcome.value;
      ledger := ledger + [Anchor(fileHash, ipfsHash, passcodeHash, receiverAddress, txHash)];
      var created := Create(UploadedDoc(p, caller, file, code, receiverAddress, ipfsHash, txHash), newId, now);
      if created.Invalid? {
        return UploadRejected(500, ServerErrorMessage);
      }
      Append(created.doc);
      reply := UploadCreated(created.doc);
    }

    /** File.create's insertion of a validated document with a new id. */
    method Append(doc: FileDoc)
      requires Valid()
      requires forall i :: 0 <= i < |docs| ==> docs[i].id != doc.id
      requires IsHexDigest(doc.passcodeHash)
      modifies this
      ensures Valid()
      ensures docs == old(docs) + [doc] && blobs == old(blobs) && ledger == old(ledger)
    {
      docs := docs + [doc];
    }

    /** POST /download/:id. The answer is `DownloadOutcome` on the stores as
        they were; a successful send marks the file transferred, and nothing
        else changes. */
    method Download(p: Primitives, caller: Caller, fileId: string, passcode: Option<string>)
      returns (reply: DownloadReply)
      requires Valid()
      modifies this
      ensures Valid()
      ensures reply == DownloadOutcome(p, old(docs), old(blobs), caller, fileId, passcode)
      ensures docs == (if reply.FileSent? then MarkTransferred(old(docs), fileId) else old(docs))
      ensures blobs == old(blobs) && ledger == old(ledger)
    {
      if !PasscodeAccepted(passcode) {
        return DownloadRejected(400, BadPasscodeMessage);
      }
      var i := IndexOfId(docs, fileId);
      if i.None? {
        return DownloadRejected(404, NotFoundMessage);
      }
      var doc := docs[i.value];
      if doc.receiverAddress != caller.blockchainAddress {
        return DownloadRejected(403, NotReceiverMessage);
      }
      if !Passcode.ComparePasscode(p, passcode.value, doc.passcodeHash) {
        return DownloadRejected(401, WrongPasscodeMessage);
      }
      if doc.ipfsHash !in blobs {
        return DownloadRejected(500, IpfsRetrieveMessage);
      }
      var decrypted := Encryption.DecryptFile(p, Some(blobs[doc.ipfsHash]), passcode);
      if decrypted.DecryptFailed? {
        return DownloadRejected(500, DecryptMessage);
      }
      reply := FileSent(decrypted.decryptedBuffer, doc.mimeType, doc.originalName);
      if !doc.isTransferred {
        docs := docs[i.value := doc.(isTransferred := true)];
      }
    }
  }

  // ---------------------------------------------------------------------------
  // Read-only routes.

  datatype SentSummary = SentSummary(
    id: string, filename: string, receiverAddress: string, size: int, createdAt: int, isTransferred: bool)

  datatype ReceivedSummary = ReceivedSummary(
    id: string, filename: string, sender: string, size: int, createdAt: int, isTransferred: bool)

  datatype Details = Details(
    id: string, filename: string, ipfsHash: string, blockchainTxHash: string,
    receiverAddress: string, createdAt: int, size: int, mimeType: string)

  datatype ListReply<T> = Listed(items: seq<T>) | ListFailed(status: int, message: string)

  datatype DetailReply = DetailRejected(status: int, message: string) | DetailFound(details: Details)

  function SentSummaryOf(d: FileDoc): SentSummary {
    SentSummary(d.id, d.filename, d.receiverAddress, d.size, d.createdAt, d.isTransferred)
  }

  /** File.find({ sender }): the documents the user uploaded, in collection
      order. */
  function SentBy(docs: seq<FileDoc>, senderId: string): (r: seq<FileDoc>)
    ensures forall i :: 0 <= i < |r| ==> r[i] in docs && r[i].sender == senderId
    ensures forall d :: d in docs && d.sender == senderId ==> d in r
  {
    Filter(docs, (d: FileDoc) => d.sender == senderId)
  }

  /** GET /sent: one summary per upload of the caller, in collection order,
      without the passcode hash or the IPFS hash. */
  function SentFiles(docs: seq<FileDoc>, caller: Caller): (r: seq<SentSummary>)
    ensures |r| == |SentBy(docs, caller.id)|
    ensures forall i :: 0 <= i < |r| ==> r[i] == SentSummaryOf(SentBy(docs, caller.id)[i])
    ensures forall i :: 0 <= i < |r| ==>
      exists d :: d in docs && d.sender == caller.id && r[i] == SentSummaryOf(d)
    ensures forall k :: 0 <= k < |docs| && docs[k].sender == caller.id ==> SentSummaryOf(docs[k]) in r
  {
    var mine := SentBy(docs, caller.id);
    var r := seq(|mine|, i requires 0 <= i < |mine| => SentSummaryOf(mine[i]));
    assert forall i :: 0 <= i < |r| ==> mine[i] in docs && mine[i].sender == caller.id && r[i] == SentSummaryOf(mine[i]);
    assert forall d :: d in mine ==> SentSummaryOf(d) in r by {
      forall d | d in mine ensures SentSummaryOf(d) in r {
        var j :| 0 <= j < |mine| && mine[j] == d;
        assert r[j] == SentSummaryOf(d);
      }
    }
    r
  }

  /** File.find({ receiverAddress }): an exact string comparison. */
  function AddressedTo(docs: seq<FileDoc>, address: string): (r: seq<FileDoc>)
    ensures forall i :: 0 <= i < |r| ==> r[i] in docs && r[i].receiverAddress == address
    ensures forall d :: d in docs && d.receiverAddress == address ==> d in r
  {
    Filter(docs, (d: FileDoc) => d.receiverAddress == address)
  }

  /** GET /received. `usernames` maps user ids to usernames (the populate
      step); a document whose sender is gone makes `file.sender.username`
      throw, which the handler answers with 500. */
  function ReceivedFiles(docs: seq<FileDoc>, caller: Caller, usernames: map<string, string>)
    : (r: ListReply<ReceivedSummary>)
    ensures r.Listed? <==> forall d :: d in docs && d.receiverAddress == caller.blockchainAddress ==> d.sender in usernames
    ensures r.ListFailed? ==> r == ListFailed(500, ServerErrorMessage)
    ensures r.Listed? ==>
      (|r.items| == |AddressedTo(docs, caller.blockchainAddress)| &&
       forall i :: 0 <= i < |r.items| ==>
         var d := AddressedTo(docs, caller.blockchainAddress)[i];
         r.items[i] == ReceivedSummary(d.id, d.filename, usernames[d.sender], d.size, d.createdAt, d.isTransferred))
  {
    var mine := AddressedTo(docs, caller.blockchainAddress);
    if exists i :: 0 <= i < |mine| && mine[i].sender !in usernames then ListFailed(500, ServerErrorMessage)
    else
      Listed(seq(|mine|, i requires 0 <= i < |mine| =>
        ReceivedSummary(mine[i].id, mine[i].filename, usernames[mine[i].sender], mine[i].size,
                        mine[i].createdAt, mine[i].isTransferred)))
  }

  function OrNotAvailable(s: string): (r: string)
    ensures r != ""
    ensures s != "" ==> r == s
  {
    if s == "" then "Not available" else s
  }

  /** GET /detail/:id: visible to the file's sender and to its receiver. */
  function Detail(docs: seq<FileDoc>, caller: Caller, fileId: string): (r: DetailReply)
    ensures fileId == "" ==> r == DetailRejected(400, "File ID is required")
    ensures fileId != "" && FindById(docs, fileId).None? ==> r == DetailRejected(404, NotFoundMessage)
    ensures r.DetailFound? <==>
      (fileId != "" && FindById(docs, fileId).Some? &&
       (FindById(docs, fileId).value.sender == caller.id ||
        FindById(docs, fileId).value.receiverAddress == caller.blockchainAddress))
    ensures r.DetailFound? ==>
      r.details.id == fileId && r.details.ipfsHash != "" && r.details.blockchainTxHash != ""
  {
    if fileId == "" then DetailRejected(400, "File ID is required")
    else match FindById(docs, fileId)
      case None => DetailRejected(404, NotFoundMessage)
      case Some(d) =>
        var isSender := d.sender == caller.id;
        var isReceiver := d.receiverAddress == caller.blockchainAddress;
        if !isSender && !isReceiver then DetailRejected(403, "You are not authorized to view this file")
        else DetailFound(Details(d.id, d.filename, OrNotAvailable(d.ipfsHash), OrNotAvailable(d.blockchainTxHash),
                                 d.receiverAddress, d.createdAt, d.size, d.mimeType))
  }

  // ---------------------------------------------------------------------------
  // Properties across calls.

  /** Download's checks take effect in the handler's order: each answer is
      given exactly when every earlier check passed and this one failed. */
  lemma DownloadCheckOrder(p: Primitives, docs: seq<FileDoc>, blobs: map<string, Bytes>,
                           caller: Caller, fileId: string, passcode: Option<string>)
    ensures var r := DownloadOutcome(p, docs, blobs, caller, fileId, passcode);
      (r == DownloadRejected(400, BadPasscodeMessage) <==> !PasscodeAccepted(passcode)) &&
      (r == DownloadRejected(404, NotFoundMessage) <==>
         PasscodeAccepted(passcode) && FindById(docs, fileId).None?) &&
      (r == DownloadRejected(403, NotReceiverMessage) <==>
         PasscodeAccepted(passcode) && FindById(docs, fileId).Some? &&
         FindById(docs, fileId).value.receiverAddress != caller.blockchainAddress) &&
      (r == DownloadRejected(401, WrongPasscodeMessage) <==>
         PasscodeAccepted(passcode) && FindById(docs, fileId).Some? &&
         FindById(docs, fileId).value.receiverAddress == caller.blockchainAddress &&
         !Passcode.ComparePasscode(p, passcode.value, FindById(docs, fileId).value.passcodeHash))
  {
  }

  /** Marking a file transferred twice is marking it once. */
  lemma MarkTransferredIdempotent(docs: seq<FileDoc>, id: string)
    ensures MarkTransferred(MarkTransferred(docs, id), id) == MarkTransferred(docs, id)
  {
    var once := MarkTransferred(docs, id);
    match IndexOfId(docs, id)
    case None =>
    case Some(i) =>
      IndexOfIdPointwise(docs, once, id, i);
      assert once[i := once[i].(isTransferred := true)] == once;
  }

  /** An upload whose stores succeed and whose file has a name and a type
      always yields a valid File document. */
  lemma UploadedDocCreated(p: Primitives, caller: Caller, file: UploadedFile, passcode: string,
                           receiverAddress: string, ipfsHash: string, txHash: string, id: string, now: int)
    requires Trim(file.originalname) != "" && file.mimetype != "" && caller.id != ""
    requires receiverAddress != "" && ipfsHash != "" && txHash != ""
    ensures Create(UploadedDoc(p, caller, file, passcode, receiverAddress, ipfsHash, txHash), id, now).Created?
  {
    var input := UploadedDoc(p, caller, file, passcode, receiverAddress, ipfsHash, txHash);
    assert |input.fileHash.value| == 64 && |input.passcodeHash.value| == 64;
    assert MissingFields(input) == {};
  }

  /** The receiver who presents the upload's passcode gets the uploaded
      bytes back from whatever collection holds the upload's document. */
  lemma DownloadOfUpload(p: Primitives, docs: seq<FileDoc>, blobs: map<string, Bytes>, receiver: Caller,
                         fileId: string, passcode: string, file: UploadedFile, iv: Block)
    requires Inverts(p)
    requires Passcode.ValidatePasscodeFormat(passcode)
    requires FindById(docs, fileId).Some?
    requires var d := FindById(docs, fileId).value;
      d.receiverAddress == receiver.blockchainAddress &&
      d.passcodeHash == Passcode.HashPasscode(p, passcode) &&
      d.ipfsHash in blobs && blobs[d.ipfsHash] == UploadPackage(p, file, passcode, iv) &&
      d.mimeType == file.mimetype && d.originalName == file.originalname
    ensures DownloadOutcome(p, docs, blobs, receiver, fileId, Some(passcode)) ==
      FileSent(file.buffer, file.mimetype, file.originalname)
  {
    Encryption.EncryptDecryptRoundTrip(p, file.buffer, passcode, iv);
  }

  /** Uploading and then downloading with the same passcode, as the intended
      receiver, sends back the original bytes under the original name; a
      second download sends them again and leaves the collection as the
      first one left it. A caller with another address is refused. */
  method UploadThenDownload(p: Primitives, sender: Caller, receiver: Caller, stranger: Caller,
                            file: UploadedFile, passcode: string, iv: Block,
                            ipfsHash: string, txHash: string, newId: string, now: int)
    returns (up: UploadReply, first: DownloadReply, second: DownloadReply, refused: DownloadReply)
    requires Inverts(p)
    requires Passcode.ValidatePasscodeFormat(passcode)
    requires receiver.blockchainAddress != "" && stranger.blockchainAddress != receiver.blockchainAddress
    requires Trim(file.originalname) != "" && file.mimetype != "" && sender.id != ""
    requires ipfsHash != "" && txHash != ""
    ensures up.UploadCreated? && up.doc.id == newId && !up.doc.isTransferred
    ensures first == FileSent(file.buffer, file.mimetype, file.originalname)
    ensures second == first
    ensures refused == DownloadRejected(403, NotReceiverMessage)
  {
    var service := new FileService();
    UploadedDocCreated(p, sender, file, passcode, receiver.blockchainAddress, ipfsHash, txHash, newId, now);
    up := service.Upload(p, sender, Some(file), Some(passcode), Some(receiver.blockchainAddress),
                         iv, Some(ipfsHash), Some(txHash), newId, now);
    var doc := up.doc;
    assert service.docs == [doc];
    assert FindById(service.docs, newId) == Some(doc);
    DownloadOfUpload(p, service.docs, service.blobs, receiver, newId, passcode, file, iv);
    first := service.Download(p, receiver, newId, Some(passcode));
    assert service.docs == MarkTransferred([doc], newId);
    assert FindById(service.docs, newId) == Some(doc.(isTransferred := true));
    DownloadOfUpload(p, service.docs, service.blobs, receiver, newId, passcode, file, iv);
    second := service.Download(p, receiver, newId, Some(passcode));
    refused := service.Download(p, stranger, newId, Some(passcode));
  }

  // ---------------------------------------------------------------------------
  // The simulated IPFS client the routes call, as written: `add` stores
  // nothing and names the upload 'Qm' followed by the first 44 hexadecimal
  // digits of the UTF-8 text of a random number; `cat` answers a placeholder
  // text whatever the hash. The blob store of `FileService` stands for a
  // content-preserving IPFS instead; the lemmas below show what the routes
  // answer against the client as written.

  const SimulatedPrefix := "Simulated IPFS content for hash: "

  /** The hash `add` returns for the text of its random number. */
  function SimulatedAddHash(randomText: string): (h: string)
    ensures 2 <= |h| <= 46 && |h| % 2 == 0 && h[..2] == "Qm"
    ensures IsAscii(h)
  {
    var hex := Hex(Utf8(randomText));
    var h := "Qm" + (if |hex| <= 44 then hex else hex[..44]);
    assert forall i :: 2 <= i < |h| ==> IsLowerHex(h[i]);
    h
  }

  /** The bytes `cat` answers for a hash. */
  function SimulatedCat(hash: string): (r: Bytes)
    ensures IsAscii(hash) ==> |r| == |SimulatedPrefix| + |hash|
  {
    var text := SimulatedPrefix + hash;
    if IsAscii(hash) then
      assert IsAscii(text) by {
        assert IsAscii(SimulatedPrefix);
      }
      Utf8AsciiLength(text);
      Utf8(text)
    else Utf8(text)
  }

  /** The placeholder `cat` answers for any hash `add` hands out has odd
      length, so no passcode decrypts it. */
  lemma SimulatedRetrievalNeverDecrypts(p: Primitives, randomText: string, passcode: Option<string>)
    ensures Encryption.DecryptFile(p, Some(SimulatedCat(SimulatedAddHash(randomText))), passcode).DecryptFailed?
  {
    var h := SimulatedAddHash(randomText);
    assert |SimulatedCat(h)| % 2 == 1;
  }

  /** The download handler against the simulated client: whatever the store
      answers for the document's hash is the placeholder, so no file is ever
      sent, the IPFS failure is never answered, and a request that passes the
      receiver and passcode checks is answered 500 "Failed to decrypt file". */
  lemma SimulatedDownloadFails(p: Primitives, docs: seq<FileDoc>, blobs: map<string, Bytes>, caller: Caller,
                               fileId: string, passcode: Option<string>, randomText: string)
    requires FindById(docs, fileId).Some?
    requires var d := FindById(docs, fileId).value;
      d.ipfsHash == SimulatedAddHash(randomText) && d.ipfsHash in blobs && blobs[d.ipfsHash] == SimulatedCat(d.ipfsHash)
    ensures !DownloadOutcome(p, docs, blobs, caller, fileId, passcode).FileSent?
    ensures DownloadOutcome(p, docs, blobs, caller, fileId, passcode) != DownloadRejected(500, IpfsRetrieveMessage)
    ensures var d := FindById(docs, fileId).value;
      PasscodeAccepted(passcode) && d.receiverAddress == caller.blockchainAddress &&
      Passcode.ComparePasscode(p, passcode.value, d.passcodeHash) ==>
      DownloadOutcome(p, docs, blobs, caller, fileId, passcode) == DownloadRejected(500, DecryptMessage)
  {
    SimulatedRetrievalNeverDecrypts(p, randomText, passcode);
  }
}
