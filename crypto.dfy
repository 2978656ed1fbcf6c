/** What the relay uses of Node's `crypto` module: SHA-256 digests (raw and
    as lowercase hex), and AES-256 in CBC mode (NIST SP 800-38A, section 6.2)
    with PKCS#7 padding (RFC 5652, section 6.3), which is what
    `createCipheriv('aes-256-cbc', key, iv)` applies by default.

    SHA-256 and the AES-256 block transformation are not modelled: they are
    fields of `Primitives`, passed to every operation that needs them. The
    only property assumed of them is `Inverts`: decrypting a block under a
    key undoes encrypting it under the same key. Everything built on top of
    them (chaining, padding, framing, hex encoding) is modelled exactly. */
module Crypto {
  import opened Common

  const BlockSize: nat := 16

  type Block = b: Bytes | |b| == 16
    witness [0, 0, 0, 0, 0, 0, 0, 0, 0, 0, 0, 0, 0, 0, 0, 0]

  /** A SHA-256 digest; also the AES-256 key the relay derives from a passcode. */
  type Digest = d: Bytes | |d| == 32
    witness [0, 0, 0, 0, 0, 0, 0, 0, 0, 0, 0, 0, 0, 0, 0, 0,
             0, 0, 0, 0, 0, 0, 0, 0, 0, 0, 0, 0, 0, 0, 0, 0]

  datatype Primitives = Primitives(
    sha256: Bytes -> Digest,
    aesEncryptBlock: (Digest, Block) -> Block,
    aesDecryptBlock: (Digest, Block) -> Block)

  /** The cipher's correctness assumption. */
  ghost predicate Inverts(p: Primitives) {
    forall key: Digest, b: Block :: p.aesDecryptBlock(key, p.aesEncryptBlock(key, b)) == b
  }

  // ---------------------------------------------------------------------------
  // Text to bytes: hash.update(string) encodes its argument as UTF-8.

  function Utf8Char(c: char): (r: Bytes)
    ensures 1 <= |r| <= 4
    ensures c as int < 0x80 ==> r == [c as int as bv8]
  {
    var x := c as int;
    if x < 0x80 then [x as bv8]
    else if x < 0x800 then [(0xC0 + x / 64) as bv8, (0x80 + x % 64) as bv8]
    else if x < 0x10000 then
      [(0xE0 + x / 4096) as bv8, (0x80 + (x / 64) % 64) as bv8, (0x80 + x % 64) as bv8]
    else
      [(0xF0 + x / 262144) as bv8, (0x80 + (x / 4096) % 64) as bv8,
       (0x80 + (x / 64) % 64) as bv8, (0x80 + x % 64) as bv8]
  }

  function Utf8(s: string): Bytes {
    if s == [] then [] else Utf8Char(s[0]) + Utf8(s[1..])
  }

  /** Every character is below U+0080, so UTF-8 spends one byte on each. */
  predicate IsAscii(s: string) {
    forall i :: 0 <= i < |s| ==> s[i] as int < 0x80
  }

  /** ASCII text encodes to as many bytes as it has characters. */
  lemma {:induction false} Utf8AsciiLength(s: string)
    requires IsAscii(s)
    ensures |Utf8(s)| == |s|
  {
    if s != [] {
      assert IsAscii(s[1..]) by {
        forall i | 0 <= i < |s[1..]| ensures s[1..][i] as int < 0x80 {
          assert s[1..][i] == s[i + 1];
        }
      }
      Utf8AsciiLength(s[1..]);
    }
  }

  // ---------------------------------------------------------------------------
  // digest('hex'): two lowercase hexadecimal characters per byte.

  function HexChar(d: nat): (c: char)
    requires d < 16
    ensures IsLowerHex(c)
  {
    if d < 10 then (48 + d) as char else (87 + d) as char
  }

  predicate IsLowerHex(c: char) { '0' <= c <= '9' || 'a' <= c <= 'f' }

  function Hex(bs: Bytes): (h: string)
    ensures |h| == 2 * |bs|
    ensures forall i :: 0 <= i < |h| ==> IsLowerHex(h[i])
  {
    if bs == [] then []
    else [HexChar(bs[0] as int / 16), HexChar(bs[0] as int % 16)] + Hex(bs[1..])
  }

  /** A SHA-256 hex digest: 64 lowercase hexadecimal characters. */
  predicate IsHexDigest(h: string) {
    |h| == 64 && forall i :: 0 <= i < |h| ==> IsLowerHex(h[i])
  }

  function Sha256Hex(p: Primitives, data: Bytes): (h: string)
    ensures IsHexDigest(h)
  {
    Hex(p.sha256(data))
  }

  // ---------------------------------------------------------------------------
  // CBC chaining over the abstract block cipher.

  function Xor(a: Block, b: Block): (r: Block)
    ensures forall i :: 0 <= i < 16 ==> r[i] == a[i] ^ b[i]
  {
    seq(16, i requires 0 <= i < 16 => a[i] ^ b[i])
  }

  lemma XorCancels(a: Block, b: Block)
    ensures Xor(Xor(a, b), b) == a
  {
    var r := Xor(Xor(a, b), b);
    forall i | 0 <= i < 16 ensures r[i] == a[i] {
      assert r[i] == (a[i] ^ b[i]) ^ b[i];
    }
  }

  /** C_i = E_k(P_i xor C_{i-1}), with C_0 the IV. */
  function CbcEncrypt(p: Primitives, key: Digest, prev: Block, data: Bytes): (c: Bytes)
    requires |data| % 16 == 0
    ensures |c| == |data|
    decreases |data|
  {
    if data == [] then []
    else
      var block := p.aesEncryptBlock(key, Xor(data[..16], prev));
      block + CbcEncrypt(p, key, block, data[16..])
  }

  /** P_i = D_k(C_i) xor C_{i-1}, with C_0 the IV. */
  function CbcDecrypt(p: Primitives, key: Digest, prev: Block, ct: Bytes): (d: Bytes)
    requires |ct| % 16 == 0
    ensures |d| == |ct|
    decreases |ct|
  {
    if ct == [] then []
    else
      var block: Block := ct[..16];
      Xor(p.aesDecryptBlock(key, block), prev) + CbcDecrypt(p, key, block, ct[16..])
  }

  lemma {:induction false} CbcRoundTrip(p: Primitives, key: Digest, iv: Block, data: Bytes)
    requires Inverts(p)
    requires |data| % 16 == 0
    ensures CbcDecrypt(p, key, iv, CbcEncrypt(p, key, iv, data)) == data
    decreases |data|
  {
    if data != [] {
      var x := Xor(data[..16], iv);
      var block := p.aesEncryptBlock(key, x);
      var rest := CbcEncrypt(p, key, block, data[16..]);
      var c: Bytes := block + rest;
      assert c[..16] == block;
      assert c[16..] == rest;
      assert p.aesDecryptBlock(key, block) == x;
      XorCancels(data[..16], iv);
      CbcRoundTrip(p, key, block, data[16..]);
      assert data[..16] + data[16..] == data;
    }
  }

  // ---------------------------------------------------------------------------
  // PKCS#7 padding: n bytes of value n, 1 <= n <= 16, up to a block boundary.

  function PadLength(len: nat): (n: nat)
    ensures 1 <= n <= 16 && (len + n) % 16 == 0
  {
    16 - len % 16
  }

  function Pad(data: Bytes): (r: Bytes)
    ensures |r| == 16 * (|data| / 16 + 1)
    ensures |r| % 16 == 0 && |data| < |r| <= |data| + 16
    ensures r[..|data|] == data
  {
    var n := PadLength(|data|);
    data + seq(n, _ => n as bv8)
  }

  /** What EVP_DecryptFinal accepts: a non-empty whole number of blocks whose
      last byte n is in 1..16 and whose last n bytes all equal n. Anything else
      is the "wrong final block length" or "bad decrypt" error. */
  function Unpad(data: Bytes): (r: Option<Bytes>)
    ensures r.Some? ==>
      (|data| > 0 && |data| % 16 == 0 &&
       |data| - 16 <= |r.value| < |data| && r.value == data[..|r.value|])
    ensures r.Some? <==>
      (|data| > 0 && |data| % 16 == 0 && 1 <= data[|data| - 1] as int <= 16 &&
       forall i :: |data| - data[|data| - 1] as int <= i < |data| ==> data[i] == data[|data| - 1])
    ensures r.Some? ==> |data| - |r.value| == data[|data| - 1] as int
  {
    if |data| == 0 || |data| % 16 != 0 then None
    else
      var n := data[|data| - 1] as int;
      if n == 0 || n > 16 then None
      else if exists i :: |data| - n <= i < |data| && data[i] as int != n then None
      else Some(data[..|data| - n])
  }

  lemma PadRoundTrip(data: Bytes)
    ensures Unpad(Pad(data)) == Some(data)
  {
    var padded := Pad(data);
    var n := PadLength(|data|);
    assert padded[|padded| - 1] as int == n;
    assert forall i :: |padded| - n <= i < |padded| ==> padded[i] as int == n;
  }
}
