/**
 * The validation helpers of the certificate utility module: structural
 * validation of a SHA-256 hex digest, the XOR-accumulating digest comparison,
 * the tamper classification built from the two, the required-field check on
 * certificate data and the metadata record.
 */
module CertificateUtils {
  import opened Wrappers
  import opened HexText

  /**
   * A Python value as these helpers distinguish it: a string, a dictionary
   * (by its string keys), or anything else.
   */
  datatype PyValue = Str(s: string) | Dict(entries: map<string, PyValue>) | Other

  // ---------------------------------------------------------------------
  // validate_hash_structure: length 64 and accepted by Python's int(s, 16)
  // ---------------------------------------------------------------------

  /**
   * The characters `int()` strips from both ends: ASCII space, tab, newline,
   * vertical tab, form feed and carriage return, and the characters at or
   * above U+0080 that `str.isspace()` accepts. Below U+0080 the conversion to
   * ASCII keeps every character as it is, so U+001C to U+001F are not stripped.
   */
  predicate IsIntWhitespace(c: char) {
    var n := c as int;
    (0x09 <= n <= 0x0D) || n == 0x20 || n == 0x85 || n == 0xA0 || n == 0x1680
    || (0x2000 <= n <= 0x200A) || n == 0x2028 || n == 0x2029 || n == 0x202F || n == 0x205F
    || n == 0x3000
  }

  function StripLeading(s: string): (t: string)
    ensures |t| <= |s| && t == s[|s| - |t|..]
    ensures t != [] ==> !IsIntWhitespace(t[0])
    ensures forall i :: 0 <= i < |s| - |t| ==> IsIntWhitespace(s[i])
  {
    if s != [] && IsIntWhitespace(s[0]) then StripLeading(s[1..]) else s
  }

  function StripTrailing(s: string): (t: string)
    ensures |t| <= |s| && t == s[..|t|]
    ensures t != [] ==> !IsIntWhitespace(t[|t| - 1])
    ensures forall i :: |t| <= i < |s| ==> IsIntWhitespace(s[i])
  {
    if s != [] && IsIntWhitespace(s[|s| - 1]) then StripTrailing(s[..|s| - 1]) else s
  }

  /** Hexadecimal digits with single underscores between them: hexdigit ("_"? hexdigit)*. */
  predicate IsDigitRun(s: string)
    decreases |s|
  {
    |s| > 0 && IsHexDigit(s[0]) &&
    (|s| == 1 || if s[1] == '_' then IsDigitRun(s[2..]) else IsDigitRun(s[1..]))
  }

  /** The text after an optional leading `+` or `-`. */
  function DropSign(t: string): string {
    if |t| > 0 && (t[0] == '+' || t[0] == '-') then t[1..] else t
  }

  predicate HasHexPrefix(u: string) {
    |u| >= 2 && u[0] == '0' && (u[1] == 'x' || u[1] == 'X')
  }

  /** The digits after a `0x`/`0X` prefix, which may start with one underscore. */
  function AfterHexPrefix(u: string): string
    requires HasHexPrefix(u)
  {
    var v := u[2..];
    if |v| > 0 && v[0] == '_' then v[1..] else v
  }

  /** An unsigned literal: an optional prefix, then a digit run. */
  predicate IsUnsignedLiteral(u: string) {
    if HasHexPrefix(u) then IsDigitRun(AfterHexPrefix(u)) else IsDigitRun(u)
  }

  /**
   * Whether `int(s, 16)` returns instead of raising ValueError: surrounding
   * whitespace, an optional sign, an optional `0x`/`0X` prefix that may be
   * followed by one underscore, then a digit run.
   */
  predicate ParsesAsBase16(s: string) {
    IsUnsignedLiteral(DropSign(StripTrailing(StripLeading(s))))
  }

  const DigestLength: nat := 64

  /** `CertificateValidator.validate_hash_structure`. */
  function ValidateHashStructure(v: PyValue): (ok: bool)
    ensures !v.Str? ==> !ok
    ensures ok ==> |v.s| == DigestLength
  {
    match v
    case Str(s) => |s| == DigestLength && ParsesAsBase16(s)
    case _ => false
  }

  /** Every non-empty string of hex digits is a digit run. */
  lemma {:induction false} HexStringIsDigitRun(s: string)
    requires s != [] && IsHexString(s)
    ensures IsDigitRun(s)
    decreases |s|
  {
    if |s| > 1 {
      HexStringIsDigitRun(s[1..]);
    }
  }

  /** A digit run holds only hex digits and underscores. */
  lemma {:induction false} DigitRunAlphabet(s: string)
    requires IsDigitRun(s)
    ensures forall i :: 0 <= i < |s| ==> IsHexDigit(s[i]) || s[i] == '_'
    decreases |s|
  {
    if |s| > 1 {
      if s[1] == '_' {
        DigitRunAlphabet(s[2..]);
        forall i | 2 <= i < |s| ensures IsHexDigit(s[i]) || s[i] == '_' {
          assert s[i] == s[2..][i - 2];
        }
      } else {
        DigitRunAlphabet(s[1..]);
        forall i | 1 <= i < |s| ensures IsHexDigit(s[i]) || s[i] == '_' {
          assert s[i] == s[1..][i - 1];
        }
      }
    }
  }

  /** No hex digit is whitespace, so stripping leaves a hex string alone. */
  lemma HexStringUnstripped(s: string)
    requires IsHexString(s)
    ensures StripTrailing(StripLeading(s)) == s
  {
    assert StripLeading(s) == s by {
      if s != [] { assert IsHexDigit(s[0]); }
    }
    assert StripTrailing(s) == s by {
      if s != [] { assert IsHexDigit(s[|s| - 1]); }
    }
  }

  /** A non-empty hex string is an integer literal in base 16. */
  lemma HexStringParses(s: string)
    requires s != [] && IsHexString(s)
    ensures ParsesAsBase16(s)
  {
    assert DropSign(s) == s by {
      assert IsHexDigit(s[0]);
    }
    assert !HasHexPrefix(s) by {
      if |s| >= 2 { assert IsHexDigit(s[1]); }
    }
    HexStringUnstripped(s);
    HexStringIsDigitRun(s);
  }

  /** Every 64-character string of hex digits, in either case, is accepted. */
  lemma HexDigestIsValid(s: string)
    requires |s| == DigestLength && IsHexString(s)
    ensures ValidateHashStructure(Str(s))
  {
    HexStringParses(s);
  }

  /** The characters that take part in Python's integer syntax besides the digits. */
  predicate IsIntSyntaxChar(c: char) {
    IsIntWhitespace(c) || c == '+' || c == '-' || c == '_' || c == 'x' || c == 'X'
  }

  /**
   * For a string without whitespace, signs, underscores or the letter x, the
   * check accepts exactly the 64-character hex strings.
   */
  lemma PlainStringValidIffHex(s: string)
    requires forall i :: 0 <= i < |s| ==> !IsIntSyntaxChar(s[i])
    ensures ValidateHashStructure(Str(s)) <==> |s| == DigestLength && IsHexString(s)
  {
    if ValidateHashStructure(Str(s)) {
      assert StripLeading(s) == s;
      assert StripTrailing(s) == s;
      DigitRunAlphabet(s);
    }
    if |s| == DigestLength && IsHexString(s) {
      HexDigestIsValid(s);
    }
  }

  /** A string of n copies of one digit. */
  function Repeat(n: nat, c: char): (r: string)
    ensures |r| == n && forall i :: 0 <= i < n ==> r[i] == c
  {
    seq(n, _ => c)
  }

  /** A `0x` prefix before 62 digits passes the length check and int(s, 16). */
  lemma AcceptsHexPrefix()
    ensures ValidateHashStructure(Str("0x" + Repeat(62, 'a')))
  {
    var a := Repeat(62, 'a');
    var s := "0x" + a;
    assert StripTrailing(StripLeading(s)) == s by {
      assert !IsIntWhitespace(s[0]) && !IsIntWhitespace(s[|s| - 1]);
    }
    assert DropSign(s) == s;
    assert HasHexPrefix(s) && AfterHexPrefix(s) == a by {
      assert s[2..] == a;
    }
    HexStringIsDigitRun(a);
  }

  /** So does a minus sign before 63 digits. */
  lemma AcceptsSign()
    ensures ValidateHashStructure(Str("-" + Repeat(63, 'f')))
  {
    var f := Repeat(63, 'f');
    var s := "-" + f;
    assert StripTrailing(StripLeading(s)) == s by {
      assert !IsIntWhitespace(s[0]) && !IsIntWhitespace(s[|s| - 1]);
    }
    assert DropSign(s) == f by {
      assert s[1..] == f;
    }
    assert !HasHexPrefix(f);
    HexStringIsDigitRun(f);
  }

  /** So does whitespace around 62 digits. */
  lemma AcceptsSurroundingWhitespace()
    ensures ValidateHashStructure(Str(" " + Repeat(62, '0') + "\n"))
  {
    var z := Repeat(62, '0');
    var s := " " + z + "\n";
    assert StripLeading(s) == z + "\n" by {
      assert s[1..] == z + "\n";
      assert !IsIntWhitespace((z + "\n")[0]);
    }
    assert StripTrailing(z + "\n") == z by {
      assert (z + "\n")[..|z + "\n"| - 1] == z;
      assert !IsIntWhitespace(z[|z| - 1]);
    }
    assert DropSign(z) == z;
    assert !HasHexPrefix(z);
    HexStringIsDigitRun(z);
  }

  /** So does an underscore between two digits. */
  lemma AcceptsUnderscore()
    ensures ValidateHashStructure(Str("0_" + Repeat(62, 'B')))
  {
    var b := Repeat(62, 'B');
    var s := "0_" + b;
    assert StripTrailing(StripLeading(s)) == s by {
      assert !IsIntWhitespace(s[0]) && !IsIntWhitespace(s[|s| - 1]);
    }
    assert DropSign(s) == s;
    assert !HasHexPrefix(s);
    HexStringIsDigitRun(b);
    assert s[2..] == b;
  }

  /** U+001C is not whitespace to `int()`, so it is not stripped and the string is rejected. */
  lemma RejectsInformationSeparator()
    ensures !ValidateHashStructure(Str([0x1C as char] + Repeat(63, '0')))
  {
    var s := [0x1C as char] + Repeat(63, '0');
    assert StripLeading(s) == s by {
      assert !IsIntWhitespace(s[0]);
    }
    assert StripTrailing(s) == s by {
      assert !IsIntWhitespace(s[|s| - 1]);
    }
    assert DropSign(s) == s;
    assert !HasHexPrefix(s);
    assert !IsHexDigit(s[0]);
  }

  /** Non-strings, wrong lengths and non-hex characters are rejected. */
  lemma RejectsMalformed(s: string)
    ensures !ValidateHashStructure(Other)
    ensures !ValidateHashStructure(Dict(map[]))
    ensures |s| != DigestLength ==> !ValidateHashStructure(Str(s))
    ensures !ValidateHashStructure(Str(Repeat(64, 'g')))
  {
    PlainStringValidIffHex(Repeat(64, 'g'));
    assert !IsHexDigit(Repeat(64, 'g')[0]);
  }

  // ---------------------------------------------------------------------
  // compare_hashes: OR of ord(x) ^ ord(y) over the pairs, tested for zero
  // ---------------------------------------------------------------------

  /** Python's `^` on non-negative integers, bit by bit from the lowest. */
  function Xor(a: nat, b: nat): nat
    decreases a + b
  {
    if a == 0 && b == 0 then 0 else 2 * Xor(a / 2, b / 2) + (if a % 2 == b % 2 then 0 else 1)
  }

  /** Python's `|` on non-negative integers, bit by bit from the lowest. */
  function Or(a: nat, b: nat): nat
    decreases a + b
  {
    if a == 0 && b == 0 then 0 else 2 * Or(a / 2, b / 2) + (if a % 2 == 0 && b % 2 == 0 then 0 else 1)
  }

  /** `x ^ y` is zero exactly when the operands are equal. */
  lemma {:induction false} XorZero(a: nat, b: nat)
    ensures Xor(a, b) == 0 <==> a == b
    decreases a + b
  {
    if !(a == 0 && b == 0) {
      XorZero(a / 2, b / 2);
    }
  }

  /** `x | y` is zero exactly when both operands are. */
  lemma {:induction false} OrZero(a: nat, b: nat)
    ensures Or(a, b) == 0 <==> a == 0 && b == 0
    decreases a + b
  {
    if !(a == 0 && b == 0) {
      OrZero(a / 2, b / 2);
    }
  }

  /** `ord(x) ^ ord(y)` for one pair of characters. */
  function CharDifference(x: char, y: char): nat {
    Xor(x as int, y as int)
  }

  /** The value of `result` after the first n pairs have been folded in. */
  function AccumulatedDifference(h1: string, h2: string, n: nat): nat
    requires n <= |h1| && n <= |h2|
  {
    if n == 0 then 0 else Or(AccumulatedDifference(h1, h2, n - 1), CharDifference(h1[n - 1], h2[n - 1]))
  }

  /** The accumulator is zero exactly when the first n characters agree. */
  lemma {:induction false} AccumulatedDifferenceZero(h1: string, h2: string, n: nat)
    requires n <= |h1| && n <= |h2|
    ensures AccumulatedDifference(h1, h2, n) == 0 <==> h1[..n] == h2[..n]
  {
    if n > 0 {
      AccumulatedDifferenceZero(h1, h2, n - 1);
      var acc := AccumulatedDifference(h1, h2, n - 1);
      OrZero(acc, CharDifference(h1[n - 1], h2[n - 1]));
      XorZero(h1[n - 1] as int, h2[n - 1] as int);
      assert h1[..n] == h1[..n - 1] + [h1[n - 1]];
      assert h2[..n] == h2[..n - 1] + [h2[n - 1]];
      if h1[..n] == h2[..n] {
        assert h1[..n - 1] == h1[..n][..n - 1];
        assert h2[..n - 1] == h2[..n][..n - 1];
        assert h1[n - 1] == h1[..n][n - 1];
      }
    }
  }

  /** What `compare_hashes` returns. */
  predicate HashesMatch(h1: string, h2: string) {
    |h1| == |h2| && AccumulatedDifference(h1, h2, |h1|) == 0
  }

  /** The comparison is string equality. */
  lemma HashesMatchIffEqual(h1: string, h2: string)
    ensures HashesMatch(h1, h2) <==> h1 == h2
  {
    if |h1| == |h2| {
      AccumulatedDifferenceZero(h1, h2, |h1|);
      assert h1[..|h1|] == h1 && h2[..|h2|] == h2;
    }
  }

  /** Hence it is reflexive and symmetric. */
  lemma HashesMatchReflexiveSymmetric(h1: string, h2: string)
    ensures HashesMatch(h1, h1)
    ensures HashesMatch(h1, h2) == HashesMatch(h2, h1)
  {
    HashesMatchIffEqual(h1, h1);
    HashesMatchIffEqual(h1, h2);
    HashesMatchIffEqual(h2, h1);
  }

  /** `CertificateValidator.compare_hashes`; only the result is modelled, not the timing. */
  method CompareHashes(h1: string, h2: string) returns (equal: bool)
    ensures equal == HashesMatch(h1, h2)
    ensures equal <==> h1 == h2
  {
    HashesMatchIffEqual(h1, h2);
    if |h1| != |h2| {
      return false;
    }
    var result: nat := 0;
    var i := 0;
    while i < |h1|
      invariant 0 <= i <= |h1|
      invariant result == AccumulatedDifference(h1, h2, i)
    {
      result := Or(result, CharDifference(h1[i], h2[i]));
      i := i + 1;
    }
    equal := result == 0;
  }

  // ---------------------------------------------------------------------
  // check_tampering
  // ---------------------------------------------------------------------

  /** The `(bool, message)` pair the validator returns. */
  datatype Verdict = Verdict(authentic: bool, message: string)

  const InvalidOriginalMessage: string := "Invalid original hash"
  const InvalidCurrentMessage: string := "Invalid current hash"
  const AuthenticMessage: string := "Certificate is authentic"
  const TamperedMessage: string := "Certificate has been tampered with"

  /** `CertificateValidator.check_tampering`. */
  function CheckTampering(original: PyValue, current: PyValue): (r: Verdict)
    ensures r.authentic <==> r.message == AuthenticMessage
  {
    if !ValidateHashStructure(original) then Verdict(false, InvalidOriginalMessage)
    else if !ValidateHashStructure(current) then Verdict(false, InvalidCurrentMessage)
    else if HashesMatch(original.s, current.s) then Verdict(true, AuthenticMessage)
    else Verdict(false, TamperedMessage)
  }

  /**
   * The full truth table: the original is checked first, then the current
   * hash; two well-formed digests are authentic exactly when they are equal.
   */
  lemma CheckTamperingTruthTable(original: PyValue, current: PyValue)
    ensures !ValidateHashStructure(original) ==>
              CheckTampering(original, current) == Verdict(false, InvalidOriginalMessage)
    ensures ValidateHashStructure(original) && !ValidateHashStructure(current) ==>
              CheckTampering(original, current) == Verdict(false, InvalidCurrentMessage)
    ensures ValidateHashStructure(original) && ValidateHashStructure(current) ==>
              CheckTampering(original, current) ==
                if original == current then Verdict(true, AuthenticMessage)
                else Verdict(false, TamperedMessage)
  {
    if original.Str? && current.Str? {
      HashesMatchIffEqual(original.s, current.s);
    }
  }

  /** An authentic verdict means both inputs are the same well-formed digest. */
  lemma AuthenticMeansSameDigest(original: PyValue, current: PyValue)
    requires CheckTampering(original, current).authentic
    ensures ValidateHashStructure(original) && original == current
  {
    HashesMatchIffEqual(original.s, current.s);
  }

  /** Two equal 64-digit hex strings are authentic; two different ones are tampered. */
  lemma CheckTamperingOnHexDigests(d1: string, d2: string)
    requires |d1| == DigestLength && IsHexString(d1)
    requires |d2| == DigestLength && IsHexString(d2)
    ensures CheckTampering(Str(d1), Str(d2)) ==
              if d1 == d2 then Verdict(true, AuthenticMessage) else Verdict(false, TamperedMessage)
  {
    HexDigestIsValid(d1);
    HexDigestIsValid(d2);
    CheckTamperingTruthTable(Str(d1), Str(d2));
  }

  // ---------------------------------------------------------------------
  // validate_certificate_data
  // ---------------------------------------------------------------------

  const RequiredFields: seq<string> := ["issuer_name", "recipient_name", "issue_date"]
  const NotDictMessage: string := "Certificate data must be a dictionary"
  const ValidDataMessage: string := "Valid certificate data"
  const MissingFieldPrefix: string := "Missing required field: "

  /** Field k is the first required field the dictionary lacks. */
  predicate FirstMissingAt(entries: map<string, PyValue>, k: nat) {
    k < |RequiredFields| && RequiredFields[k] !in entries
    && forall j :: 0 <= j < k ==> RequiredFields[j] in entries
  }

  /** `CertificateUtils.validate_certificate_data`. */
  method ValidateCertificateData(data: PyValue) returns (valid: bool, message: string)
    ensures !data.Dict? ==> !valid && message == NotDictMessage
    ensures data.Dict? ==>
              (valid <==> forall k :: 0 <= k < |RequiredFields| ==> RequiredFields[k] in data.entries)
    ensures valid ==> message == ValidDataMessage
    ensures data.Dict? && !valid ==>
              exists k: nat :: FirstMissingAt(data.entries, k) && message == MissingFieldPrefix + RequiredFields[k]
  {
    if !data.Dict? {
      return false, NotDictMessage;
    }
    var i := 0;
    while i < |RequiredFields|
      invariant 0 <= i <= |RequiredFields|
      invariant forall k :: 0 <= k < i ==> RequiredFields[k] in data.entries
    {
      var field := RequiredFields[i];
      if field !in data.entries {
        assert FirstMissingAt(data.entries, i);
        return false, MissingFieldPrefix + field;
      }
      i := i + 1;
    }
    return true, ValidDataMessage;
  }

  // ---------------------------------------------------------------------
  // create_metadata, with the two clock readings passed in
  // ---------------------------------------------------------------------

  /** The metadata dictionary; `issue_date` and `timestamp` come from the clock. */
  datatype Metadata = Metadata(
    certificateHash: string,
    issuer: string,
    recipient: string,
    issueDate: string,
    verificationUrl: string,
    timestamp: real)

  const VerifyRoute: string := "/verify/"

  /** The hash named by a verification URL, if it has the `/verify/` form. */
  function HashFromVerificationUrl(url: string): (h: Option<string>)
    ensures h.Some? ==> url == VerifyRoute + h.value
  {
    if |url| >= |VerifyRoute| && url[..|VerifyRoute|] == VerifyRoute then Some(url[|VerifyRoute|..])
    else None
  }

  /**
   * `CertificateUtils.create_metadata`; `now` is the ISO text of the first
   * clock reading, `nowTimestamp` the POSIX time of the second.
   */
  function CreateMetadata(certificateHash: string, issuer: string, recipient: string,
                          now: string, nowTimestamp: real): (m: Metadata)
    ensures m.certificateHash == certificateHash
    ensures m.issuer == issuer && m.recipient == recipient
    ensures m.issueDate == now && m.timestamp == nowTimestamp
    ensures HashFromVerificationUrl(m.verificationUrl) == Some(certificateHash)
  {
    var url := VerifyRoute + certificateHash;
    assert url[..|VerifyRoute|] == VerifyRoute;
    Metadata(certificateHash, issuer, recipient, now, url, nowTimestamp)
  }
}
