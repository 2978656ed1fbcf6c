/** The passcode helpers of the Mongo-backed routes: six-digit passcodes,
    their format check, and their SHA-256 hex digests (the only form in which
    the File model stores them). */
module Passcode {
  import opened Common
  import opened Crypto

  const MinPasscode: nat := 100000
  const MaxPasscode: nat := 999999

  /** generatePasscode: `draw` is the integer crypto.randomInt(100000, 1000000)
      returned; the passcode is its decimal numeral. */
  function GeneratePasscode(draw: nat): (code: string)
    requires MinPasscode <= draw <= MaxPasscode
    ensures |code| == 6 && AllDigits(code) && code[0] != '0'
    ensures ValidatePasscodeFormat(code)
    ensures DecimalValue(code) == draw
  {
    assert Pow10(5) == MinPasscode && Pow10(6) == MaxPasscode + 1;
    NatToStringLength(draw, 5);
    DecimalValueOfNatToString(draw);
    NatToString(draw)
  }

  /** validatePasscodeFormat: the whole string matches /^\d{6}$/. */
  predicate ValidatePasscodeFormat(code: string) {
    |code| == 6 && AllDigits(code)
  }

  /** hashPasscode: the SHA-256 digest of the passcode's UTF-8 bytes, in hex. */
  function HashPasscode(p: Primitives, code: string): (h: string)
    ensures IsHexDigest(h)
  {
    Sha256Hex(p, Utf8(code))
  }

  /** comparePasscode: hash the candidate and compare with the stored digest. */
  predicate ComparePasscode(p: Primitives, code: string, hashed: string) {
    HashPasscode(p, code) == hashed
  }

  /** Different draws give different passcodes, and every passcode generated
      has a non-zero leading digit, so "000000" .. "099999" are never drawn. */
  lemma GeneratePasscodeInjective(a: nat, b: nat)
    requires MinPasscode <= a <= MaxPasscode && MinPasscode <= b <= MaxPasscode
    requires GeneratePasscode(a) == GeneratePasscode(b)
    ensures a == b
  {
    NatToStringInjective(a, b);
  }

  /** The regular expression admits exactly six ASCII digits: these are the
      boundary cases on either side. */
  lemma ValidatePasscodeFormatExamples()
    ensures ValidatePasscodeFormat("123456") && ValidatePasscodeFormat("000000")
    ensures !ValidatePasscodeFormat("12345") && !ValidatePasscodeFormat("1234567")
    ensures !ValidatePasscodeFormat("12345a") && !ValidatePasscodeFormat(" 12345")
    ensures !ValidatePasscodeFormat("")
  {
    assert !IsDigit("12345a"[5]);
    assert !IsDigit(" 12345"[0]);
  }

  /** A stored hash is verified by the passcode it was made from. */
  lemma CompareOwnHash(p: Primitives, code: string)
    ensures ComparePasscode(p, code, HashPasscode(p, code))
  {
  }

  /** A stored digest is never itself a well-formed passcode: what the File
      model keeps cannot be typed in at the download form to pass the check
      by mistake, and no passcode is stored in the clear. */
  lemma HashIsNeverAPasscode(p: Primitives, code: string, other: string)
    requires ValidatePasscodeFormat(other)
    ensures HashPasscode(p, code) != other
  {
  }
}
