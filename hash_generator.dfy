/**
 * The pure part of the React hash generator: `arrayBufferToHex`, the per-byte
 * two-digit encoder, and the rule that empty input clears the shown hash
 * without computing a digest.
 */
module HashGenerator {
  import opened Wrappers
  import opened HexText
  import CertificateUtils

  /** One element of the `Uint8Array` view of the digest buffer. */
  type Byte = x: int | 0 <= x < 256

  /** `('00' + x.toString(16)).slice(-2)`. */
  function ByteToHex(x: Byte): string {
    SliceLast("00" + ToHex(x), 2)
  }

  /** Each byte becomes its high and its low nibble, as lowercase digits, zero-padded. */
  lemma ByteToHexDigits(x: Byte)
    ensures ByteToHex(x) == [HexDigit(x / 16), HexDigit(x % 16)]
  {
    if x < 16 {
      assert "00" + ToHex(x) == ['0', '0', HexDigit(x)];
    } else {
      assert ToHex(x / 16) == [HexDigit(x / 16)];
      assert "00" + ToHex(x) == ['0', '0', HexDigit(x / 16), HexDigit(x % 16)];
    }
  }

  /** `arrayBufferToHex`: the per-byte strings joined in byte order. */
  function ArrayBufferToHex(buffer: seq<Byte>): (hex: string)
    ensures |hex| == 2 * |buffer|
    ensures IsLowerHexString(hex)
  {
    if buffer == [] then ""
    else
      ByteToHexDigits(buffer[0]);
      ByteToHex(buffer[0]) + ArrayBufferToHex(buffer[1..])
  }

  /** The encoding is concatenative. */
  lemma {:induction false} ArrayBufferToHexAppend(a: seq<Byte>, b: seq<Byte>)
    ensures ArrayBufferToHex(a + b) == ArrayBufferToHex(a) + ArrayBufferToHex(b)
    decreases |a|
  {
    if a != [] {
      assert (a + b)[1..] == a[1..] + b;
      ArrayBufferToHexAppend(a[1..], b);
    } else {
      assert a + b == b;
    }
  }

  /** Byte i occupies characters 2i and 2i+1, so byte order is preserved. */
  lemma {:induction false} ArrayBufferToHexAt(buffer: seq<Byte>, i: nat)
    requires i < |buffer|
    ensures ArrayBufferToHex(buffer)[2 * i..2 * i + 2] == [HexDigit(buffer[i] / 16), HexDigit(buffer[i] % 16)]
    decreases i
  {
    ByteToHexDigits(buffer[0]);
    if i > 0 {
      ArrayBufferToHexAt(buffer[1..], i - 1);
      var rest := ArrayBufferToHex(buffer[1..]);
      assert ArrayBufferToHex(buffer)[2 * i..2 * i + 2] == rest[2 * (i - 1)..2 * (i - 1) + 2];
    }
  }

  /** Reading two digits back as one byte. */
  function PairValue(hi: char, lo: char): (v: nat)
    requires IsHexDigit(hi) && IsHexDigit(lo)
    ensures v < 256
  {
    16 * HexDigitValue(hi) + HexDigitValue(lo)
  }

  /** The inverse of the encoder: two digits per byte, failing on odd length or a non-digit. */
  function HexToBytes(hex: string): (r: Option<seq<Byte>>)
    ensures r.Some? ==> 2 * |r.value| == |hex|
    decreases |hex|
  {
    if hex == [] then Some([])
    else if |hex| == 1 || !IsHexDigit(hex[0]) || !IsHexDigit(hex[1]) then None
    else
      match HexToBytes(hex[2..])
      case None => None
      case Some(rest) => Some([PairValue(hex[0], hex[1]) as Byte] + rest)
  }

  /** Decoding the encoder's output gives the buffer back. */
  lemma {:induction false} HexRoundTrip(buffer: seq<Byte>)
    ensures HexToBytes(ArrayBufferToHex(buffer)) == Some(buffer)
    decreases |buffer|
  {
    if buffer != [] {
      var x := buffer[0];
      ByteToHexDigits(x);
      var hex := ArrayBufferToHex(buffer);
      assert hex[..2] == [HexDigit(x / 16), HexDigit(x % 16)];
      assert hex[2..] == ArrayBufferToHex(buffer[1..]);
      HexRoundTrip(buffer[1..]);
      assert PairValue(hex[0], hex[1]) == x;
      assert [x] + buffer[1..] == buffer;
    }
  }

  /** Every even-length lowercase hex string is the encoding of the bytes it decodes to. */
  lemma {:induction false} LowerHexRoundTrip(hex: string)
    requires |hex| % 2 == 0 && IsLowerHexString(hex)
    ensures HexToBytes(hex).Some? && ArrayBufferToHex(HexToBytes(hex).value) == hex
    decreases |hex|
  {
    if hex != [] {
      var rest := hex[2..];
      assert IsLowerHexString(rest) by {
        forall i | 0 <= i < |rest| ensures IsLowerHexDigit(rest[i]) {
          assert rest[i] == hex[i + 2];
        }
      }
      LowerHexRoundTrip(rest);
      var tail := HexToBytes(rest).value;
      var v := PairValue(hex[0], hex[1]);
      var bytes := [v as Byte] + tail;
      assert HexToBytes(hex) == Some(bytes);
      assert bytes[0] == v && bytes[1..] == tail;
      ByteToHexDigits(v as Byte);
      assert v / 16 == HexDigitValue(hex[0]) && v % 16 == HexDigitValue(hex[1]);
      LowerHexDigitIsCanonical(hex[0]);
      LowerHexDigitIsCanonical(hex[1]);
      assert ByteToHex(v as Byte) == hex[..2];
      assert hex == hex[..2] + rest;
    }
  }

  /** Hence different buffers never share a hex string. */
  lemma ArrayBufferToHexInjective(a: seq<Byte>, b: seq<Byte>)
    requires ArrayBufferToHex(a) == ArrayBufferToHex(b)
    ensures a == b
  {
    HexRoundTrip(a);
    HexRoundTrip(b);
  }

  const Sha256DigestBytes: nat := 32

  /**
   * A 32-byte SHA-256 buffer yields 64 characters, which the server-side
   * structure check accepts as a digest.
   */
  lemma Sha256HexIsDigest(buffer: seq<Byte>)
    requires |buffer| == Sha256DigestBytes
    ensures |ArrayBufferToHex(buffer)| == 64
    ensures CertificateUtils.ValidateHashStructure(CertificateUtils.Str(ArrayBufferToHex(buffer)))
  {
    var hex := ArrayBufferToHex(buffer);
    assert IsHexString(hex) by {
      forall i | 0 <= i < |hex| ensures IsHexDigit(hex[i]) {
        assert IsLowerHexDigit(hex[i]);
      }
    }
    CertificateUtils.HexDigestIsValid(hex);
  }

  const HashErrorText: string := "Error computing hash. Check console."

  /**
   * The text `computeSHA256` puts into the `hash` state. `digest` stands for
   * `crypto.subtle.digest` over the text's UTF-8 bytes: a 32-byte buffer, or
   * None when the call rejects. Empty input clears the hash and never asks
   * for a digest.
   */
  function ComputeSha256(input: string, digest: string -> Option<seq<Byte>>): (shown: string)
    requires forall t :: digest(t).Some? ==> |digest(t).value| == Sha256DigestBytes
    ensures input == "" ==> shown == ""
    ensures input != "" && digest(input).None? ==> shown == HashErrorText
    ensures input != "" && digest(input).Some? ==>
              |shown| == 64 && IsLowerHexString(shown) && HexToBytes(shown) == digest(input)
  {
    if input == "" then ""
    else
      match digest(input)
      case None => HashErrorText
      case Some(buffer) =>
        HexRoundTrip(buffer);
        ArrayBufferToHex(buffer)
  }

  /** On empty input the result does not depend on the digest function at all. */
  lemma EmptyInputComputesNoDigest(d1: string -> Option<seq<Byte>>, d2: string -> Option<seq<Byte>>)
    requires forall t :: d1(t).Some? ==> |d1(t).value| == Sha256DigestBytes
    requires forall t :: d2(t).Some? ==> |d2(t).value| == Sha256DigestBytes
    ensures ComputeSha256("", d1) == ComputeSha256("", d2) == ""
  {
  }
}
