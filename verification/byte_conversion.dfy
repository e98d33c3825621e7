/**
 * The two byte helpers of BLEDevice.cpp: the big-endian integer decode
 * `byteArrayToIntBE` and the hex encoder `byteArrayToHexString`, each as a
 * loop method proved equal to a recursive specification function, together
 * with the inverse of each specification and the round trips between them.
 */
module ByteConversion {
  import opened Optional

  /** An octet as `unsigned char` holds it. */
  type byte = b: int | 0 <= b < 256

  const TWO_32: int := 0x1_0000_0000
  const TWO_31: int := 0x8000_0000

  // ---------------------------------------------------------------------------
  // Big-endian decode
  // ---------------------------------------------------------------------------

  /** The unbounded big-endian value of `s`: the fold r := r * 256 + b, first byte most significant. */
  function BigEndianValue(s: seq<byte>): nat
  {
    if s == [] then 0 else BigEndianValue(s[..|s| - 1]) * 256 + s[|s| - 1]
  }

  /** 256 raised to `n`: one more than the largest value `n` bytes can hold. */
  function Pow256(n: nat): nat
  {
    if n == 0 then 1 else 256 * Pow256(n - 1)
  }

  /**
   * The value a 32-bit two's-complement `int` holds after an arithmetic
   * result `n` is stored in it: the low 32 bits, read as signed.
   */
  function Int32Of(n: int): (r: int)
    ensures -TWO_31 <= r < TWO_31
    ensures (r - n) % TWO_32 == 0
    ensures -TWO_31 <= n < TWO_31 ==> r == n
  {
    var u := n % TWO_32;
    if u < TWO_31 then u else u - TWO_32
  }

  /** What `byteArrayToIntBE` returns: the big-endian value, wrapped to a 32-bit `int`. */
  function Int32BE(s: seq<byte>): int
  {
    Int32Of(BigEndianValue(s))
  }

  /**
   * byteArrayToIntBE: `result = (result << 8) | byte` for each byte. The
   * shift multiplies by 256 and leaves the low eight bits clear, so the `|`
   * adds the byte; the 32-bit int keeps the low 32 bits of the sum.
   */
  method ByteArrayToIntBE(byteArray: seq<byte>) returns (result: int)
    ensures result == Int32BE(byteArray)
    ensures |byteArray| <= 3 ==> result == BigEndianValue(byteArray)
  {
    result := 0;
    for i := 0 to |byteArray|
      invariant result == Int32BE(byteArray[..i])
    {
      assert byteArray[..i + 1][..i] == byteArray[..i];
      Int32Step(BigEndianValue(byteArray[..i]), byteArray[i]);
      result := Int32Of(result * 256 + byteArray[i]);
    }
    assert byteArray[..|byteArray|] == byteArray;
    if |byteArray| <= 3 {
      ShortDecodeIsExact(byteArray);
    }
  }

  /** Adding a multiple of 2^32 does not change what a 32-bit int holds. */
  lemma Int32OfShift(a: int, c: int)
    ensures Int32Of(a + c * TWO_32) == Int32Of(a)
  {
    assert (a + c * TWO_32) % TWO_32 == a % TWO_32;
  }

  /** One loop step: wrapping after every byte equals wrapping once at the end. */
  lemma Int32Step(x: int, b: byte)
    ensures Int32Of(Int32Of(x) * 256 + b) == Int32Of(x * 256 + b)
  {
    var y := Int32Of(x);
    var k := (y - x) / TWO_32;
    assert y == x + k * TWO_32;
    assert y * 256 + b == (x * 256 + b) + (k * 256) * TWO_32;
    Int32OfShift(x * 256 + b, k * 256);
  }

  /** Appending a byte shifts the value up one byte and adds it. */
  lemma BigEndianAppend(s: seq<byte>, b: byte)
    ensures BigEndianValue(s + [b]) == BigEndianValue(s) * 256 + b
  {
    assert (s + [b])[..|s|] == s;
  }

  /** `n` bytes hold a value below 256^n. */
  lemma {:induction false} BigEndianBound(s: seq<byte>)
    ensures BigEndianValue(s) < Pow256(|s|)
  {
    if s != [] {
      BigEndianBound(s[..|s| - 1]);
    }
  }

  /** Up to three bytes fit in a signed 32-bit int, so the decode is exact and non-negative. */
  lemma ShortDecodeIsExact(s: seq<byte>)
    requires |s| <= 3
    ensures Int32BE(s) == BigEndianValue(s)
    ensures 0 <= Int32BE(s) < 0x100_0000
  {
    BigEndianBound(s);
    assert Pow256(|s|) <= Pow256(3) by {
      if |s| < 3 { Pow256Grows(|s|, 3); }
    }
  }

  lemma {:induction false} Pow256Grows(m: nat, n: nat)
    requires m <= n
    ensures Pow256(m) <= Pow256(n)
  {
    if m < n {
      Pow256Grows(m, n - 1);
    }
  }

  /** The documented sample values, and a four-byte input whose top bit wraps to a negative int. */
  lemma DecodeExamples()
    ensures Int32BE([]) == 0
    ensures Int32BE([0x00, 0x01]) == 1
    ensures Int32BE([0x01, 0x00]) == 256
    ensures Int32BE([0xFF, 0xFF, 0xFF, 0xFF]) == -1
    ensures Int32BE([0x01, 0x00, 0x00, 0x00, 0x02]) == 2
  {
    assert [0x00, 0x01][..1] == [0x00];
    assert [0x01, 0x00][..1] == [0x01];
    var ff: seq<byte> := [0xFF, 0xFF, 0xFF, 0xFF];
    assert ff[..3] == [0xFF, 0xFF, 0xFF] && ff[..3][..2] == [0xFF, 0xFF] && ff[..3][..2][..1] == [0xFF];
    assert BigEndianValue([0xFF, 0xFF]) == 0xFFFF;
    assert BigEndianValue([0xFF, 0xFF, 0xFF]) == 0xFF_FFFF;
    assert BigEndianValue(ff) == 0xFFFF_FFFF;
    var five: seq<byte> := [0x01, 0x00, 0x00, 0x00, 0x02];
    assert five[..4] == [0x01, 0x00, 0x00, 0x00] && five[..4][..3] == [0x01, 0x00, 0x00];
    assert five[..4][..3][..2] == [0x01, 0x00] && five[..4][..3][..2][..1] == [0x01];
    assert BigEndianValue([0x01, 0x00, 0x00]) == 0x1_0000;
    assert BigEndianValue([0x01, 0x00, 0x00, 0x00]) == 0x100_0000;
    assert BigEndianValue(five) == 0x1_0000_0002;
  }

  /** The inverse of the decode: `n` written as `len` big-endian bytes (its low 8*len bits). */
  function BigEndianBytes(n: nat, len: nat): (r: seq<byte>)
    ensures |r| == len
  {
    if len == 0 then [] else BigEndianBytes(n / 256, len - 1) + [n % 256]
  }

  /** Encoding a value that fits in `len` bytes and decoding it gives the value back. */
  lemma {:induction false} DecodeEncode(n: nat, len: nat)
    requires n < Pow256(len)
    ensures BigEndianValue(BigEndianBytes(n, len)) == n
  {
    if len > 0 {
      DecodeEncode(n / 256, len - 1);
      BigEndianAppend(BigEndianBytes(n / 256, len - 1), n % 256);
    }
  }

  /** Decoding bytes and re-encoding them at the same width gives the bytes back. */
  lemma {:induction false} EncodeDecode(s: seq<byte>)
    ensures BigEndianBytes(BigEndianValue(s), |s|) == s
  {
    if s != [] {
      var init, last := s[..|s| - 1], s[|s| - 1];
      EncodeDecode(init);
      assert s == init + [last];
    }
  }

  // ---------------------------------------------------------------------------
  // Hex encode
  // ---------------------------------------------------------------------------

  /** The lowercase hex digit for 0..15, as `std::hex` prints it. */
  function HexDigit(d: int): char
    requires 0 <= d < 16
  {
    if d < 10 then ('0' as int + d) as char else ('a' as int + d - 10) as char
  }

  /** The digit a lowercase hex character stands for. */
  function HexValue(c: char): Option<int>
  {
    if '0' <= c <= '9' then Some(c as int - '0' as int)
    else if 'a' <= c <= 'f' then Some(c as int - 'a' as int + 10)
    else None
  }

  /** `n` in hex with no leading zeros ("0" for zero): what `std::hex` writes for an unsigned value. */
  function HexDigits(n: nat): string
  {
    if n < 16 then [HexDigit(n)] else HexDigits(n / 16) + [HexDigit(n % 16)]
  }

  /** `std::setw(2)` with fill '0': pad on the left to at least two characters. */
  function PadTo2(s: string): string
  {
    if |s| < 2 then seq(2 - |s|, _ => '0') + s else s
  }

  /**
   * `static_cast<int>(data[i])` for a `char` holding octet `b`: on a platform
   * where `char` is signed, octets from 0x80 up read as negative.
   */
  function CharAsInt(b: byte, signedChar: bool): int
  {
    if signedChar && b >= 128 then b - 256 else b
  }

  /** What `oss << std::setw(2) << int` writes in hex mode: the int's unsigned 32-bit value. */
  function ByteHex(b: byte, signedChar: bool): string
  {
    PadTo2(HexDigits(CharAsInt(b, signedChar) % TWO_32))
  }

  /** The whole string `byteArrayToHexString` builds: each byte's text, in order. */
  function HexString(data: seq<byte>, signedChar: bool): string
  {
    if data == [] then [] else HexString(data[..|data| - 1], signedChar) + ByteHex(data[|data| - 1], signedChar)
  }

  /** Every byte prints as exactly two digits: always where `char` is unsigned, below 0x80 everywhere. */
  predicate TwoDigitBytes(data: seq<byte>, signedChar: bool)
  {
    !signedChar || forall i :: 0 <= i < |data| ==> data[i] < 128
  }

  /** byteArrayToHexString: the first `length` chars of `data`, each written through the hex stream. */
  method ByteArrayToHexString(data: array<byte>, length: nat, signedChar: bool) returns (r: string)
    requires length <= data.Length
    ensures r == HexString(data[..length], signedChar)
    ensures TwoDigitBytes(data[..length], signedChar) ==> |r| == 2 * length
  {
    r := [];
    for i := 0 to length
      invariant r == HexString(data[..i], signedChar)
    {
      assert data[..i + 1][..i] == data[..i];
      r := r + ByteHex(data[i], signedChar);
    }
    if TwoDigitBytes(data[..length], signedChar) {
      HexStringLength(data[..length], signedChar);
    }
  }

  /** A two-digit byte prints as its high and low nibble, zero-padded. */
  lemma ByteHexTwoDigits(b: byte, signedChar: bool)
    requires !signedChar || b < 128
    ensures ByteHex(b, signedChar) == [HexDigit(b / 16), HexDigit(b % 16)]
  {
    assert CharAsInt(b, signedChar) % TWO_32 == b;
    if b >= 16 {
      assert HexDigits(b / 16) == [HexDigit(b / 16)];
    }
  }

  /** n followed by one more digit d, for n > 0. */
  lemma HexDigitsAppend(n: nat, d: int)
    requires n > 0 && 0 <= d < 16
    ensures HexDigits(n * 16 + d) == HexDigits(n) + [HexDigit(d)]
  {
    assert (n * 16 + d) / 16 == n && (n * 16 + d) % 16 == d;
  }

  /** Where `char` is signed, an octet from 0x80 up prints as eight digits, "ffffff" then its two nibbles. */
  lemma ByteHexSignedHigh(b: byte)
    requires b >= 128
    ensures ByteHex(b, true) == "ffffff" + [HexDigit(b / 16), HexDigit(b % 16)]
  {
    assert CharAsInt(b, true) % TWO_32 == 0xFFFF_FF00 + b;
    assert HexDigits(0xF) == "f";
    HexDigitsAppend(0xF, 15);
    HexDigitsAppend(0xFF, 15);
    HexDigitsAppend(0xFFF, 15);
    HexDigitsAppend(0xFFFF, 15);
    HexDigitsAppend(0xF_FFFF, 15);
    HexDigitsAppend(0xFF_FFFF, b / 16);
    HexDigitsAppend(0xFFF_FFF0 + b / 16, b % 16);
    assert 0xFFF_FFF0 + b / 16 == 0xFF_FFFF * 16 + b / 16;
    assert 0xFFFF_FF00 + b == (0xFFF_FFF0 + b / 16) * 16 + b % 16;
  }

  /** With two digits per byte the output is twice as long as the input. */
  lemma {:induction false} HexStringLength(data: seq<byte>, signedChar: bool)
    requires TwoDigitBytes(data, signedChar)
    ensures |HexString(data, signedChar)| == 2 * |data|
  {
    if data != [] {
      var init := data[..|data| - 1];
      TwoDigitInit(data, signedChar);
      HexStringLength(init, signedChar);
      ByteHexTwoDigits(data[|data| - 1], signedChar);
    }
  }

  /** The inverse of the hex encoder: pairs of lowercase hex digits back to bytes. */
  function HexDecode(s: string): Option<seq<byte>>
  {
    if |s| == 0 then Some([])
    else if |s| == 1 then None
    else
      match (HexDecode(s[..|s| - 2]), HexValue(s[|s| - 2]), HexValue(s[|s| - 1]))
      case (Some(init), Some(hi), Some(lo)) => Some(init + [hi * 16 + lo])
      case _ => None
  }

  lemma HexValueOfDigit(d: int)
    requires 0 <= d < 16
    ensures HexValue(HexDigit(d)) == Some(d)
  {
  }

  lemma TwoDigitInit(data: seq<byte>, signedChar: bool)
    requires data != [] && TwoDigitBytes(data, signedChar)
    ensures TwoDigitBytes(data[..|data| - 1], signedChar)
  {
    if signedChar {
      var init := data[..|data| - 1];
      forall i | 0 <= i < |init| ensures init[i] < 128 { assert init[i] == data[i]; }
    }
  }

  /** Two more digits decode to one more byte. */
  lemma HexDecodeStep(prefix: string, init: seq<byte>, b: byte)
    requires HexDecode(prefix) == Some(init)
    ensures HexDecode(prefix + [HexDigit(b / 16), HexDigit(b % 16)]) == Some(init + [b])
  {
    var s := prefix + [HexDigit(b / 16), HexDigit(b % 16)];
    HexValueOfDigit(b / 16);
    HexValueOfDigit(b % 16);
    assert s[..|s| - 2] == prefix;
  }

  /** Decoding the encoder's output gives back the bytes, whenever every byte prints as two digits. */
  lemma {:induction false} HexRoundTrip(data: seq<byte>, signedChar: bool)
    requires TwoDigitBytes(data, signedChar)
    ensures HexDecode(HexString(data, signedChar)) == Some(data)
  {
    if data != [] {
      var init, last := data[..|data| - 1], data[|data| - 1];
      TwoDigitInit(data, signedChar);
      HexRoundTrip(init, signedChar);
      ByteHexTwoDigits(last, signedChar);
      HexDecodeStep(HexString(init, signedChar), init, last);
      assert data == init + [last];
    }
  }
}
