/** The Mongoose `File` model: the schema's required fields and defaults,
    and its `verifyPasscode` static. */
module FileModel {
  import opened Common
  import opened Crypto
  import Passcode

  /** A stored File document. `sender` is the uploader's ObjectId, written as
      its string form. */
  datatype FileDoc = FileDoc(
    id: string,
    filename: string,
    originalName: string,
    mimeType: string,
    size: int,
    ipfsHash: string,
    blockchainTxHash: string,
    fileHash: string,
    passcodeHash: string,
    sender: string,
    receiverAddress: string,
    isTransferred: bool,
    createdAt: int)

  /** The values passed to File.create; absent ones are None. */
  datatype NewFile = NewFile(
    filename: Option<string>,
    originalName: Option<string>,
    mimeType: Option<string>,
    size: Option<int>,
    ipfsHash: Option<string>,
    blockchainTxHash: Option<string>,
    fileHash: Option<string>,
    passcodeHash: Option<string>,
    sender: Option<string>,
    receiverAddress: Option<string>,
    isTransferred: Option<bool>,
    createdAt: Option<int>)

  datatype Field =
    | Filename | OriginalName | MimeType | Size | IpfsHash | BlockchainTxHash
    | FileHash | PasscodeHash | Sender | ReceiverAddress

  datatype CreateResult = Created(doc: FileDoc) | Invalid(missing: set<Field>)

  const AllFields: set<Field> :=
    {Filename, OriginalName, MimeType, Size, IpfsHash, BlockchainTxHash, FileHash, PasscodeHash, Sender, ReceiverAddress}

  /** Mongoose's `required` on a string rejects a missing value and the empty
      string; `filename` is trimmed before it is validated. */
  predicate IsMissing(input: NewFile, f: Field) {
    match f
    case Filename => input.filename.None? || Trim(input.filename.value) == ""
    case OriginalName => !Truthy(input.originalName)
    case MimeType => !Truthy(input.mimeType)
    case Size => input.size.None?
    case IpfsHash => !Truthy(input.ipfsHash)
    case BlockchainTxHash => !Truthy(input.blockchainTxHash)
    case FileHash => !Truthy(input.fileHash)
    case PasscodeHash => !Truthy(input.passcodeHash)
    case Sender => !Truthy(input.sender)
    case ReceiverAddress => !Truthy(input.receiverAddress)
  }

  /** The fields validation reports as missing. */
  function MissingFields(input: NewFile): (missing: set<Field>)
    ensures forall f :: f in missing <==> IsMissing(input, f)
    ensures Filename !in missing <==> input.filename.Some? && Trim(input.filename.value) != ""
    ensures Size !in missing <==> input.size.Some?
    ensures Sender !in missing <==> Truthy(input.sender)
  {
    set f | f in AllFields && IsMissing(input, f)
  }

  /** Every required field is present. */
  predicate Complete(input: NewFile) {
    input.filename.Some? && Trim(input.filename.value) != "" &&
    Truthy(input.originalName) && Truthy(input.mimeType) && input.size.Some? &&
    Truthy(input.ipfsHash) && Truthy(input.blockchainTxHash) && Truthy(input.fileHash) &&
    Truthy(input.passcodeHash) && Truthy(input.sender) && Truthy(input.receiverAddress)
  }

  lemma MissingFieldsEmpty(input: NewFile)
    ensures MissingFields(input) == {} <==> Complete(input)
  {
    var m := MissingFields(input);
    if Complete(input) {
      forall f ensures f !in m {
        assert !IsMissing(input, f);
      }
    } else {
      var f :=
        if input.filename.None? || Trim(input.filename.value) == "" then Filename
        else if !Truthy(input.originalName) then OriginalName
        else if !Truthy(input.mimeType) then MimeType
        else if input.size.None? then Size
        else if !Truthy(input.ipfsHash) then IpfsHash
        else if !Truthy(input.blockchainTxHash) then BlockchainTxHash
        else if !Truthy(input.fileHash) then FileHash
        else if !Truthy(input.passcodeHash) then PasscodeHash
        else if !Truthy(input.sender) then Sender
        else ReceiverAddress;
      assert IsMissing(input, f);
      assert f in m;
    }
  }

  /** File.create: validate, apply `trim` and the defaults, and assign the
      document its id. `now` is Date.now() at creation. */
  function Create(input: NewFile, id: string, now: int): (r: CreateResult)
    ensures r.Created? <==> MissingFields(input) == {}
    ensures r.Invalid? ==> r.missing == MissingFields(input) && r.missing != {}
    ensures r.Created? ==>
      (r.doc.id == id &&
       r.doc.filename == Trim(input.filename.value) && r.doc.filename != "" &&
       Some(r.doc.originalName) == input.originalName && r.doc.originalName != "" &&
       Some(r.doc.mimeType) == input.mimeType &&
       Some(r.doc.size) == input.size &&
       Some(r.doc.ipfsHash) == input.ipfsHash &&
       Some(r.doc.blockchainTxHash) == input.blockchainTxHash &&
       Some(r.doc.fileHash) == input.fileHash &&
       Some(r.doc.passcodeHash) == input.passcodeHash &&
       Some(r.doc.sender) == input.sender && r.doc.sender != "" &&
       Some(r.doc.receiverAddress) == input.receiverAddress && r.doc.receiverAddress != "" &&
       r.doc.isTransferred == (input.isTransferred == Some(true)) &&
       r.doc.createdAt == (if input.createdAt.Some? then input.createdAt.value else now))
  {
    MissingFieldsEmpty(input);
    if !Complete(input) then Invalid(MissingFields(input))
    else
      Created(FileDoc(
        id, Trim(input.filename.value), input.originalName.value, input.mimeType.value,
        input.size.value, input.ipfsHash.value, input.blockchainTxHash.value,
        input.fileHash.value, input.passcodeHash.value, input.sender.value,
        input.receiverAddress.value,
        if input.isTransferred.Some? then input.isTransferred.value else false,
        if input.createdAt.Some? then input.createdAt.value else now))
  }

  /** The position of the first document with that id, if any. */
  function IndexOfId(docs: seq<FileDoc>, id: string): (r: Option<nat>)
    ensures r.Some? ==>
      (r.value < |docs| && docs[r.value].id == id &&
       forall j :: 0 <= j < r.value ==> docs[j].id != id)
    ensures r.None? <==> forall j :: 0 <= j < |docs| ==> docs[j].id != id
  {
    if docs == [] then None
    else if docs[0].id == id then Some(0)
    else match IndexOfId(docs[1..], id)
      case None => None
      case Some(k) => Some(k + 1)
  }

  /** findById: the document with that id, if any. */
  function FindById(docs: seq<FileDoc>, id: string): (r: Option<FileDoc>)
    ensures r.Some? ==> r.value in docs && r.value.id == id
    ensures r.None? <==> forall d :: d in docs ==> d.id != id
  {
    match IndexOfId(docs, id)
    case None => None
    case Some(i) => Some(docs[i])
  }

  /** verifyPasscode: false when the file does not exist; otherwise whether
      the SHA-256 hex digest of the passcode is the stored one. */
  function VerifyPasscode(p: Primitives, docs: seq<FileDoc>, fileId: string, passcode: string): (ok: bool)
    ensures ok ==> FindById(docs, fileId).Some?
  {
    match FindById(docs, fileId)
    case None => false
    case Some(doc) => doc.passcodeHash == Sha256Hex(p, Utf8(passcode))
  }

  /** The static agrees with the route helper comparePasscode on an existing
      file, and rejects every passcode for a missing one. */
  lemma VerifyPasscodeAgreesWithCompare(p: Primitives, docs: seq<FileDoc>, fileId: string, passcode: string)
    ensures VerifyPasscode(p, docs, fileId, passcode) <==>
      (FindById(docs, fileId).Some? &&
       Passcode.ComparePasscode(p, passcode, FindById(docs, fileId).value.passcodeHash))
  {
  }

  /** A document created from a passcode's hash is verified by that passcode. */
  lemma CreatedDocVerifies(p: Primitives, input: NewFile, id: string, now: int, passcode: string)
    requires input.passcodeHash == Some(Passcode.HashPasscode(p, passcode))
    requires Create(input, id, now).Created?
    ensures VerifyPasscode(p, [Create(input, id, now).doc], id, passcode)
  {
  }

  /** Whitespace around the filename is dropped, and a name of whitespace
      alone is rejected as missing. */
  lemma FilenameTrimmed(input: NewFile, s: string)
    requires input.filename == Some(s)
    ensures Filename in MissingFields(input) <==> forall i :: 0 <= i < |s| ==> IsJsSpace(s[i])
  {
    TrimCharacterised(s);
  }
}
