/**
 * The two pure string helpers of the page script: the 31-multiplier rolling
 * hash behind `generateHashFromText` and the display abbreviation `formatHash`.
 */
module ClientScript {
  import opened HexText

  const TwoTo31: int := 0x8000_0000
  const TwoTo32: int := 0x1_0000_0000

  predicate IsInt32(x: int) {
    -TwoTo31 <= x < TwoTo31
  }

  /** ECMAScript ToInt32 on an integral Number: reduce modulo 2^32 into the signed range. */
  function ToInt32(x: int): (r: int)
    ensures IsInt32(r)
    ensures (x - r) % TwoTo32 == 0
    ensures IsInt32(x) ==> r == x
  {
    var m := x % TwoTo32;
    if m >= TwoTo31 then m - TwoTo32 else m
  }

  /** Values congruent modulo 2^32 have the same ToInt32. */
  lemma ToInt32Congruent(a: int, b: int)
    requires (a - b) % TwoTo32 == 0
    ensures ToInt32(a) == ToInt32(b)
  {
    var k := (a - b) / TwoTo32;
    assert a == b + k * TwoTo32;
    assert a % TwoTo32 == b % TwoTo32;
  }

  /** A UTF-16 code unit, what `charCodeAt` returns. */
  type CodeUnit = x: int | 0 <= x < 0x1_0000

  /** The UTF-16 code units of one character: itself, or a surrogate pair above U+FFFF. */
  function Utf16Char(c: char): (units: seq<CodeUnit>)
    ensures 1 <= |units| <= 2
    ensures c as int < 0x1_0000 <==> units == [c as int]
  {
    var n := c as int;
    if n < 0x1_0000 then [n]
    else [0xD800 + (n - 0x1_0000) / 0x400, 0xDC00 + (n - 0x1_0000) % 0x400]
  }

  /**
   * A JavaScript string: the sequence of code units that `length` and
   * `charCodeAt` see. It may hold unpaired surrogates.
   */
  type JsString = seq<CodeUnit>

  /** The JavaScript string that holds a Unicode text, with characters above U+FFFF as surrogate pairs. */
  function Utf16(text: string): (units: JsString)
    ensures |units| >= |text|
    ensures (forall i :: 0 <= i < |text| ==> text[i] as int < 0x1_0000) ==>
              |units| == |text| && forall i :: 0 <= i < |text| ==> units[i] == text[i] as int
  {
    if text == [] then [] else Utf16Char(text[0]) + Utf16(text[1..])
  }

  /** `x << 5`: ToInt32 of the operand, shifted, the result read back as a signed 32-bit value. */
  function ShiftLeft5(x: int): int {
    ToInt32(ToInt32(x) * 32)
  }

  /**
   * One iteration of the loop: `hash = ((hash << 5) - hash) + char` in Number
   * arithmetic (exact, every operand is below 2^37), then `hash = hash & hash`,
   * which is ToInt32 of its operand.
   */
  function Step(hash: int, code: CodeUnit): int {
    ToInt32((ShiftLeft5(hash) - hash) + code)
  }

  /** The accumulator moves to `31 * hash + char` reduced to a signed 32-bit integer. */
  lemma StepIsMultiplyAdd(hash: int, code: CodeUnit)
    requires IsInt32(hash)
    ensures Step(hash, code) == ToInt32(31 * hash + code)
  {
    var s := ToInt32(hash * 32);
    assert (hash * 32 - s) % TwoTo32 == 0;
    var k := (hash * 32 - s) / TwoTo32;
    assert hash * 32 - s == k * TwoTo32;
    assert ((s - hash + code) - (31 * hash + code)) == -(k * TwoTo32);
    ToInt32Congruent(s - hash + code, 31 * hash + code);
  }

  /** The reference definition: the rolling hash `h = int32(31 * h + c)` over the code units. */
  function RollingHash(units: seq<CodeUnit>): (h: int)
    ensures IsInt32(h)
  {
    if units == [] then 0 else ToInt32(31 * RollingHash(units[..|units| - 1]) + units[|units| - 1])
  }

  function Abs(x: int): nat {
    if x < 0 then -x else x
  }

  /** `Math.abs(hash).toString(16).padStart(8, '0')`. */
  function FormatDigest(hash: int): string {
    PadStart(ToHex(Abs(hash)), 8, '0')
  }

  const DigestWidth: nat := 8

  /**
   * For any 32-bit value the text is exactly 8 lowercase hex digits (|int32| is
   * at most 2^31 = 0x80000000, which has 8 digits) and reads back as |hash|.
   */
  lemma FormatDigestShape(hash: int)
    requires IsInt32(hash)
    ensures |FormatDigest(hash)| == DigestWidth
    ensures IsLowerHexString(FormatDigest(hash))
    ensures HexValue(FormatDigest(hash)) == Abs(hash)
  {
    var digits := ToHex(Abs(hash));
    assert Pow16(8) == TwoTo32;
    ToHexLength(Abs(hash), 8);
    var padded := FormatDigest(hash);
    assert padded == seq(8 - |digits|, _ => '0') + digits;
    ToHexRoundTrip(Abs(hash));
    LeadingZerosKeepValue(8 - |digits|, digits);
    assert IsLowerHexString(padded) by {
      forall i | 0 <= i < |padded| ensures IsLowerHexDigit(padded[i]) {
        if i >= 8 - |digits| { assert padded[i] == digits[i - (8 - |digits|)]; }
      }
    }
  }

  /** `generateHashFromText`: the loop over the code units, then the formatting. */
  method GenerateHashFromText(text: JsString) returns (digest: string)
    ensures digest == FormatDigest(RollingHash(text))
    ensures |digest| == DigestWidth && IsLowerHexString(digest)
    ensures HexValue(digest) == Abs(RollingHash(text))
  {
    var units := text;
    var hash := 0;
    var i := 0;
    while i < |units|
      invariant 0 <= i <= |units|
      invariant hash == RollingHash(units[..i])
    {
      var code := units[i];
      StepIsMultiplyAdd(hash, code);
      assert units[..i + 1][..i] == units[..i];
      hash := (ShiftLeft5(hash) - hash) + code;
      hash := ToInt32(hash);
      i := i + 1;
    }
    assert units[..i] == units;
    FormatDigestShape(hash);
    digest := FormatDigest(hash);
  }

  /** The empty text hashes to eight zeros. */
  lemma EmptyTextDigest()
    ensures FormatDigest(RollingHash([])) == "00000000"
  {
    assert ToHex(0) == "0";
    assert PadStart("0", 8, '0') == seq(7, _ => '0') + "0";
  }

  /** "ab" gives 31 * 97 + 98 = 3105 = 0xc21. */
  lemma TwoLetterDigest()
    ensures FormatDigest(RollingHash(Utf16("ab"))) == "00000c21"
  {
    assert Utf16("ab") == [97, 98];
    assert [97, 98][..1] == [97];
    assert RollingHash([97]) == 97;
    assert RollingHash([97, 98]) == 3105;
    assert ToHex(3105 / 16) == ToHex(194 / 16) + [HexDigit(194 % 16)];
    assert ToHex(3105) == "c21";
    assert PadStart("c21", 8, '0') == seq(5, _ => '0') + "c21";
  }

  /** `formatHash`: short values unchanged, longer ones as first 8, "...", last 8. */
  function FormatHash(hash: string): (r: string)
    ensures |hash| <= 16 ==> r == hash
    ensures |hash| > 16 ==> |r| == 19 && r[..8] == hash[..8] && r[8..11] == "..."
                            && r[11..] == hash[|hash| - 8..]
  {
    if |hash| <= 16 then hash else hash[..8] + "..." + hash[|hash| - 8..]
  }

  /** Abbreviating twice is abbreviating once: the 19-character form maps to itself. */
  lemma FormatHashIdempotent(hash: string)
    ensures FormatHash(FormatHash(hash)) == FormatHash(hash)
  {
    var r := FormatHash(hash);
    if |hash| > 16 {
      assert r == r[..8] + r[8..11] + r[11..];
      assert r[|r| - 8..] == r[11..];
    }
  }
}
