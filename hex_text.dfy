/**
 * Hexadecimal text as the JavaScript side of the application produces it:
 * `Number.prototype.toString(16)` on a non-negative integer, `padStart` and
 * `slice(-k)`, together with the digit alphabet the Python validator accepts.
 */
module HexText {

  predicate IsLowerHexDigit(c: char) {
    '0' <= c <= '9' || 'a' <= c <= 'f'
  }

  /** A hexadecimal digit in either case. */
  predicate IsHexDigit(c: char) {
    IsLowerHexDigit(c) || 'A' <= c <= 'F'
  }

  predicate IsHexString(s: string) {
    forall i :: 0 <= i < |s| ==> IsHexDigit(s[i])
  }

  predicate IsLowerHexString(s: string) {
    forall i :: 0 <= i < |s| ==> IsLowerHexDigit(s[i])
  }

  /** The value of one hexadecimal digit. */
  function HexDigitValue(c: char): (v: nat)
    requires IsHexDigit(c)
    ensures v < 16
  {
    if '0' <= c <= '9' then c as int - '0' as int
    else if 'a' <= c <= 'f' then c as int - 'a' as int + 10
    else c as int - 'A' as int + 10
  }

  /** The lowercase digit JavaScript writes for a value below 16. */
  function HexDigit(d: nat): (c: char)
    requires d < 16
    ensures IsLowerHexDigit(c)
    ensures HexDigitValue(c) == d
  {
    if d < 10 then ('0' as int + d) as char else ('a' as int + d - 10) as char
  }

  /** A lowercase digit is the digit written for its own value. */
  lemma LowerHexDigitIsCanonical(c: char)
    requires IsLowerHexDigit(c)
    ensures HexDigit(HexDigitValue(c)) == c
  {
  }

  /** `n.toString(16)` for a non-negative integer: lowercase, no leading zeros, "0" for zero. */
  function ToHex(n: nat): (s: string)
    ensures |s| >= 1
    ensures IsLowerHexString(s)
    ensures n >= 16 ==> s[0] != '0'
    decreases n
  {
    if n < 16 then [HexDigit(n)] else ToHex(n / 16) + [HexDigit(n % 16)]
  }

  /** The big-endian value a string of hexadecimal digits denotes. */
  function HexValue(s: string): nat
    requires IsHexString(s)
  {
    if s == [] then 0 else 16 * HexValue(s[..|s| - 1]) + HexDigitValue(s[|s| - 1])
  }

  function Pow16(k: nat): (p: nat)
    ensures p >= 1
  {
    if k == 0 then 1 else 16 * Pow16(k - 1)
  }

  /** Reading back what `toString(16)` wrote gives the number again. */
  lemma {:induction false} ToHexRoundTrip(n: nat)
    ensures HexValue(ToHex(n)) == n
    decreases n
  {
    if n >= 16 {
      var s := ToHex(n);
      assert s[..|s| - 1] == ToHex(n / 16);
      ToHexRoundTrip(n / 16);
    }
  }

  /** A number below 16^k needs at most k digits. */
  lemma {:induction false} ToHexLength(n: nat, k: nat)
    requires 1 <= k && n < Pow16(k)
    ensures |ToHex(n)| <= k
    decreases k
  {
    if n >= 16 {
      assert n / 16 < Pow16(k - 1);
      ToHexLength(n / 16, k - 1);
    }
  }

  /** `s.padStart(width, fill)` with a one-character fill string. */
  function PadStart(s: string, width: nat, fill: char): (r: string)
    ensures |r| == if |s| < width then width else |s|
    ensures r[|r| - |s|..] == s
    ensures forall i :: 0 <= i < |r| - |s| ==> r[i] == fill
  {
    if |s| >= width then s else seq(width - |s|, _ => fill) + s
  }

  /** Leading zeros do not change the value of a hexadecimal string. */
  lemma {:induction false} LeadingZerosKeepValue(zeros: nat, s: string)
    requires IsHexString(s)
    ensures IsHexString(seq(zeros, _ => '0') + s)
    ensures HexValue(seq(zeros, _ => '0') + s) == HexValue(s)
    decreases |s|, zeros
  {
    var z := seq(zeros, _ => '0');
    var t := z + s;
    assert IsHexString(t) by {
      forall i | 0 <= i < |t| ensures IsHexDigit(t[i]) {
        if i >= zeros { assert t[i] == s[i - zeros]; }
      }
    }
    if s == [] {
      if zeros > 0 {
        assert t == seq(zeros - 1, _ => '0') + ['0'];
        assert t[..|t| - 1] == seq(zeros - 1, _ => '0') + [];
        LeadingZerosKeepValue(zeros - 1, []);
      }
    } else {
      assert t[..|t| - 1] == z + s[..|s| - 1];
      LeadingZerosKeepValue(zeros, s[..|s| - 1]);
    }
  }

  /**
   * `s.slice(-k)`: the last k characters, or all of s when it is shorter.
   * For k = 0 the start index is -0, which JavaScript reads as 0, so the
   * whole string is returned.
   */
  function SliceLast(s: string, k: nat): (r: string)
    ensures |r| == if k == 0 || |s| < k then |s| else k
    ensures r == s[|s| - |r|..]
  {
    if k == 0 || |s| <= k then s else s[|s| - k..]
  }
}
