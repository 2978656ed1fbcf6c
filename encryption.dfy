/** The file encryption helpers of the Mongo-backed routes: a file is
    encrypted with AES-256-CBC under the SHA-256 digest of its passcode, and
    the stored package is the 16-byte IV followed by the ciphertext. */
module Encryption {
  import opened Common
  import opened Crypto
  import Passcode

  const IvLength: nat := 16

  const EncryptError := "Failed to encrypt file"
  const DecryptError := "Failed to decrypt file. Incorrect passcode or corrupted file."

  datatype EncryptResult = Encrypted(encryptedBuffer: Bytes) | EncryptFailed(error: string)

  datatype DecryptResult = Decrypted(decryptedBuffer: Bytes) | DecryptFailed(error: string)

  /** The AES-256 key: the raw SHA-256 digest of the passcode's UTF-8 bytes. */
  function DeriveKey(p: Primitives, passcode: string): Digest {
    p.sha256(Utf8(passcode))
  }

  /** encryptFile. A missing buffer or passcode makes Node throw, which the
      helper reports as a failure; `iv` is the value crypto.randomBytes(16)
      returned. */
  function EncryptFile(p: Primitives, fileBuffer: Option<Bytes>, passcode: Option<string>, iv: Block)
    : (r: EncryptResult)
    ensures r.Encrypted? <==> fileBuffer.Some? && passcode.Some?
    ensures r.EncryptFailed? ==> r.error == EncryptError
    ensures r.Encrypted? ==>
      (|r.encryptedBuffer| == IvLength + 16 * (|fileBuffer.value| / 16 + 1) &&
       r.encryptedBuffer[..IvLength] == iv)
  {
    if fileBuffer.None? || passcode.None? then EncryptFailed(EncryptError)
    else
      var key := DeriveKey(p, passcode.value);
      Encrypted(iv + CbcEncrypt(p, key, iv, Pad(fileBuffer.value)))
  }

  /** decryptFile: the first 16 bytes are the IV and the rest the ciphertext.
      A short package makes createDecipheriv reject the IV; an empty or
      misaligned ciphertext, or bad padding, makes final() throw. */
  function DecryptFile(p: Primitives, encryptedBuffer: Option<Bytes>, passcode: Option<string>)
    : (r: DecryptResult)
    ensures r.DecryptFailed? ==> r.error == DecryptError
    ensures r.Decrypted? ==>
      (encryptedBuffer.Some? && passcode.Some? &&
       |encryptedBuffer.value| >= IvLength + 16 && |encryptedBuffer.value| % 16 == 0 &&
       |encryptedBuffer.value| - IvLength - 16 <= |r.decryptedBuffer| < |encryptedBuffer.value| - IvLength)
    ensures encryptedBuffer.Some? && |encryptedBuffer.value| <= IvLength ==> r.DecryptFailed?
  {
    if encryptedBuffer.None? || passcode.None? then DecryptFailed(DecryptError)
    else
      var buf := encryptedBuffer.value;
      if |buf| < IvLength then DecryptFailed(DecryptError)
      else
        var iv: Block := buf[..IvLength];
        var ct := buf[IvLength..];
        if |ct| % 16 != 0 then DecryptFailed(DecryptError)
        else
          var blocks := CbcDecrypt(p, DeriveKey(p, passcode.value), iv, ct);
          assert |blocks| == |buf| - IvLength && |buf| == IvLength + |ct|;
          assert |buf| % 16 == 0 by { BlockAligned(|ct|); }
          match Unpad(blocks)
          case None => DecryptFailed(DecryptError)
          case Some(plain) => Decrypted(plain)
  }

  lemma BlockAligned(n: nat)
    requires n % 16 == 0
    ensures (IvLength + n) % 16 == 0
  {
  }

  /** hashFile: the SHA-256 hex digest of the file's bytes. */
  function HashFile(p: Primitives, buffer: Bytes): (h: string)
    ensures IsHexDigest(h)
  {
    Sha256Hex(p, buffer)
  }

  /** hashPasscode: the same digest as the passcode helpers compute. */
  function HashPasscode(p: Primitives, passcode: string): (h: string)
    ensures IsHexDigest(h)
  {
    Sha256Hex(p, Utf8(passcode))
  }

  /** validatePasscode: the same six-digit rule as the passcode helpers. */
  predicate ValidatePasscode(passcode: string) {
    |passcode| == 6 && AllDigits(passcode)
  }

  /** Decrypting a package with the passcode that encrypted it gives back the
      original file, whatever its length (the empty file included). */
  lemma EncryptDecryptRoundTrip(p: Primitives, data: Bytes, passcode: string, iv: Block)
    requires Inverts(p)
    ensures EncryptFile(p, Some(data), Some(passcode), iv).Encrypted?
    ensures DecryptFile(p, Some(EncryptFile(p, Some(data), Some(passcode), iv).encryptedBuffer),
                        Some(passcode)) == Decrypted(data)
  {
    var key := DeriveKey(p, passcode);
    var ct := CbcEncrypt(p, key, iv, Pad(data));
    var pkg := iv + ct;
    assert pkg[..IvLength] == iv;
    assert pkg[IvLength..] == ct;
    CbcRoundTrip(p, key, iv, Pad(data));
    PadRoundTrip(data);
  }

  /** The copies in this file agree with the passcode helpers: the same
      format rule and the same digest for every string. */
  lemma AgreesWithPasscodeHelpers(p: Primitives, passcode: string)
    ensures ValidatePasscode(passcode) <==> Passcode.ValidatePasscodeFormat(passcode)
    ensures HashPasscode(p, passcode) == Passcode.HashPasscode(p, passcode)
    ensures Passcode.ComparePasscode(p, passcode, HashPasscode(p, passcode))
  {
  }

  /** A package too short to hold an IV and one block is always rejected. */
  lemma ShortPackageRejected(p: Primitives, pkg: Bytes, passcode: string)
    requires |pkg| < IvLength + 16
    ensures DecryptFile(p, Some(pkg), Some(passcode)) == DecryptFailed(DecryptError)
  {
  }
}
