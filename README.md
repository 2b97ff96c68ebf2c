# CertiVault core, modelled in Dafny

CertiVault is a small Flask and React application. It stores the SHA-256 digest
of an uploaded certificate document, with issuer and recipient, and later tells
whether a digest is authentic or has been tampered with. Around the I/O it has
five pieces of sequential logic, and this project models each of them and
proves what its code and comments promise:

- `certificate_utils.dfy` (module `CertificateUtils`): the digest structure check
  (`validate_hash_structure`), the XOR/OR accumulating comparison
  (`compare_hashes`), the tamper verdict (`check_tampering`), the required-field
  check (`validate_certificate_data`) and the metadata record (`create_metadata`).
- `binary_search.py` is modelled in `binary_search.dfy` (module `BinarySearch`): the
  low/high loop with its invariants, soundness, completeness and termination.
- `static/js/main.js` is modelled in `main_js.dfy` (module `ClientScript`): the
  31-multiplier rolling hash with ECMAScript ToInt32 wrap-around
  (`generateHashFromText`) and the display abbreviation (`formatHash`).
- `src/HashGenerator.jsx` is modelled in `hash_generator.dfy` (module `HashGenerator`):
  `arrayBufferToHex` and the empty-input rule of `computeSHA256`.
- `app.py` is modelled in `app.dfy` (module `App`): `allowed_file` with
  `ALLOWED_EXTENSIONS`, the QR payload text and the signed text.
- `hex_text.dfy` (module `HexText`) holds what the JavaScript and Python sides
  share: hex digits, `Number.prototype.toString(16)`, `padStart` and
  `slice(-2)`. `wrappers.dfy` holds an `Option` type.

Modelling choices:

- Python values reaching the validators are `PyValue`: a string, a dictionary
  (with string keys) or anything else.
- `validate_hash_structure` is modelled as the source has it: length 64, and
  `int(s, 16)` does not raise. The grammar modelled for `int(s, 16)` is:
  - whitespace on either side: ASCII space, tab, newline, vertical tab, form
    feed and carriage return, plus the characters at or above U+0080 that
    `str.isspace` accepts (U+001C to U+001F are not stripped);
  - then an optional sign;
  - then an optional `0x`/`0X` prefix, optionally followed by one underscore;
  - then hex digits, with single underscores allowed between them.

  So the check also accepts 64-character strings that are not 64 hex digits.
  The comment at utils/certificate_utils.py:90 says a SHA-256 digest is a
  64-character hex string. The check is more permissive than that, and the
  model follows the code.
  Four lemmas show this (`AcceptsHexPrefix`, `AcceptsSign`,
  `AcceptsSurroundingWhitespace`, `AcceptsUnderscore`). `PlainStringValidIffHex`
  shows that for strings without those syntax characters, the check accepts
  exactly the 64-digit hex strings.
- `compare_hashes` is modelled as a method with a loop. Python's `^` and `|` on
  non-negative integers are written out bit by bit (`Xor`, `Or`).
- `generateHashFromText` is modelled as a method with a loop over a JavaScript string,
  given as the UTF-16 code units that `length` and `charCodeAt` read
  (`JsString`). `Utf16` gives the code units of a Unicode text. `hash << 5` and `hash & hash` are written
  with ECMAScript ToInt32. The reference definition `RollingHash` is the fold of
  `int32(31 * h + c)`, and `StepIsMultiplyAdd` proves that the source's step
  computes it.
- `allowed_file` lowercases ASCII letters only. This decides membership in the
  allow-list exactly as Python's `str.lower` does. The only non-ASCII characters
  that lowercase to ASCII letters are U+212A (which becomes `k`) and U+0130
  (which becomes `i` plus a combining dot). Neither can produce an allowed
  extension.
- The clock readings in `create_metadata` are modelled as parameters. There are two,
  because the source calls `datetime.now()` twice.
- `crypto.subtle.digest` is modelled as a function parameter of `ComputeSha256` that
  returns a 32-byte buffer, or `None` when the promise rejects.

## Model

| member | source | states |
|---|---|---|
| `CertificateUtils.StripLeading` | utils/certificate_utils.py:93 | the result is a suffix of the input, everything removed is whitespace to `int()`, and the result does not start with such whitespace |
| `CertificateUtils.StripTrailing` | utils/certificate_utils.py:93 | the result is a prefix of the input, everything removed is whitespace to `int()`, and the result does not end with such whitespace |
| `CertificateUtils.ValidateHashStructure` | utils/certificate_utils.py:86-96 | a non-string is rejected, and anything accepted has exactly 64 characters |
| `CertificateUtils.HexStringIsDigitRun` | utils/certificate_utils.py:93 | every non-empty string of hex digits is a base-16 digit run |
| `CertificateUtils.DigitRunAlphabet` | utils/certificate_utils.py:93 | a digit run holds only hex digits and underscores |
| `CertificateUtils.HexStringUnstripped` | utils/certificate_utils.py:93 | whitespace stripping leaves a hex string unchanged |
| `CertificateUtils.HexStringParses` | utils/certificate_utils.py:92-94 | every non-empty hex string parses with `int(s, 16)` |
| `CertificateUtils.HexDigestIsValid` | utils/certificate_utils.py:88-96 | every 64-character hex string, in either case, is accepted |
| `CertificateUtils.PlainStringValidIffHex` | utils/certificate_utils.py:88-96 | for a string without whitespace, sign, underscore or x, acceptance holds iff it is 64 hex digits (both directions) |
| `CertificateUtils.AcceptsHexPrefix` | utils/certificate_utils.py:92-94 | `"0x"` followed by 62 digits is accepted |
| `CertificateUtils.AcceptsSign` | utils/certificate_utils.py:92-94 | `"-"` followed by 63 digits is accepted |
| `CertificateUtils.AcceptsSurroundingWhitespace` | utils/certificate_utils.py:92-94 | 62 digits between a space and a newline are accepted |
| `CertificateUtils.AcceptsUnderscore` | utils/certificate_utils.py:92-94 | an underscore between two digits is accepted |
| `CertificateUtils.RejectsInformationSeparator` | utils/certificate_utils.py:92-96 | U+001C followed by 63 zeros is rejected, because `int()` does not strip U+001C |
| `CertificateUtils.RejectsMalformed` | utils/certificate_utils.py:88-96 | non-strings, dictionaries, wrong lengths and 64 non-hex letters are rejected |
| `CertificateUtils.XorZero` | utils/certificate_utils.py:106 | `x ^ y` is 0 exactly when x equals y |
| `CertificateUtils.OrZero` | utils/certificate_utils.py:106 | the bitwise OR of two integers is 0 exactly when both are 0 |
| `CertificateUtils.AccumulatedDifferenceZero` | utils/certificate_utils.py:104-106 | the accumulator over the first n pairs is 0 exactly when the first n characters agree |
| `CertificateUtils.HashesMatchIffEqual` | utils/certificate_utils.py:99-107 | the comparison is true iff the two strings are equal, and false whenever the lengths differ |
| `CertificateUtils.HashesMatchReflexiveSymmetric` | utils/certificate_utils.py:99-107 | the comparison is reflexive and symmetric |
| `CertificateUtils.CompareHashes` | utils/certificate_utils.py:99-107 | the loop returns the accumulated-OR test result, which is `h1 == h2` |
| `CertificateUtils.CheckTampering` | utils/certificate_utils.py:110-120 | the verdict is authentic exactly when the message is "Certificate is authentic" |
| `CertificateUtils.CheckTamperingTruthTable` | utils/certificate_utils.py:110-120 | an invalid original gives "Invalid original hash" whatever the current is; then an invalid current gives "Invalid current hash"; two valid digests are authentic iff equal, else tampered |
| `CertificateUtils.AuthenticMeansSameDigest` | utils/certificate_utils.py:117-118 | an authentic verdict implies both inputs are the same well-formed digest |
| `CertificateUtils.CheckTamperingOnHexDigests` | utils/certificate_utils.py:110-120 | for two 64-digit hex strings: authentic when equal, tampered when different |
| `CertificateUtils.ValidateCertificateData` | utils/certificate_utils.py:28-39 | a non-dict is rejected with its message; a dict is valid iff all three required keys are present; otherwise the message names the first missing field in the order issuer_name, recipient_name, issue_date |
| `CertificateUtils.HashFromVerificationUrl` | utils/certificate_utils.py:55 | a hash read from a verification URL rebuilds that URL as `"/verify/" + hash` |
| `CertificateUtils.CreateMetadata` | utils/certificate_utils.py:48-57 | hash, issuer, recipient and the two clock readings pass through unchanged, and the verification URL gives the hash back |
| `HexText.HexDigitValue` | utils/certificate_utils.py:93 | a hex digit in either case has a value below 16 |
| `HexText.HexDigit` | static/js/main.js:145 | the digit written for a value below 16 is lowercase and reads back as that value |
| `HexText.LowerHexDigitIsCanonical` | static/js/main.js:145 | each lowercase digit is the digit written for its value |
| `HexText.ToHex` | static/js/main.js:145 | `toString(16)` gives at least one lowercase digit, with no leading zero above 15 |
| `HexText.ToHexRoundTrip` | static/js/main.js:145 | reading the `toString(16)` text back gives the number |
| `HexText.ToHexLength` | static/js/main.js:145 | a number below 16^k has at most k digits |
| `HexText.PadStart` | static/js/main.js:145 | `padStart` reaches the target width, keeps the text as a suffix, and fills the rest with the fill character |
| `HexText.LeadingZerosKeepValue` | static/js/main.js:145 | leading zeros do not change the value of a hex string |
| `HexText.SliceLast` | src/HashGenerator.jsx:15 | `slice(-k)` gives the last k characters, or all of them when there are fewer or when k is 0 (`slice(-0)` starts at index 0) |
| `BinarySearch.Search` | binary_search.py:7-40 | any index returned holds the target; on a sorted list -1 means the target is absent, and a present target is found; an empty list gives -1; the loop terminates because high - low decreases |
| `BinarySearch.ExampleSearches` | binary_search.py:42-64 | in `[2,5,8,12,16,23,38,56,72,91]`, 23 is found at 5 and 42 gives -1 |
| `ClientScript.ToInt32` | static/js/main.js:142-143 | the result is a signed 32-bit value congruent to its input modulo 2^32, and int32 inputs are unchanged |
| `ClientScript.ToInt32Congruent` | static/js/main.js:142-143 | values congruent modulo 2^32 have the same ToInt32 |
| `ClientScript.Utf16Char` | static/js/main.js:141 | a character gives one or two code units, and only a BMP character gives its own code |
| `ClientScript.Utf16` | static/js/main.js:140-141 | the string has at least as many code units as characters, and a BMP-only text gives exactly its character codes |
| `ClientScript.StepIsMultiplyAdd` | static/js/main.js:142-143 | `((h << 5) - h) + c` followed by `& h` equals `int32(31 * h + c)` |
| `ClientScript.RollingHash` | static/js/main.js:139-144 | the accumulator stays a signed 32-bit integer |
| `ClientScript.FormatDigestShape` | static/js/main.js:145 | for every int32, the text is exactly 8 lowercase hex digits and reads back as the absolute value |
| `ClientScript.GenerateHashFromText` | static/js/main.js:137-146 | for any JavaScript string, unpaired surrogates included, the loop computes the rolling hash of its code units; the result is 8 lowercase hex digits whose value is the hash's absolute value |
| `ClientScript.EmptyTextDigest` | static/js/main.js:139-145 | the empty text gives `"00000000"` |
| `ClientScript.TwoLetterDigest` | static/js/main.js:137-146 | `"ab"` gives `"00000c21"` |
| `ClientScript.FormatHash` | static/js/main.js:238-241 | up to 16 characters are returned unchanged; longer input gives 19 characters: the first 8, `"..."`, the last 8 |
| `ClientScript.FormatHashIdempotent` | static/js/main.js:238-241 | abbreviating an abbreviation changes nothing |
| `HashGenerator.ByteToHexDigits` | src/HashGenerator.jsx:15 | each byte becomes its high and low nibble as lowercase digits, zero-padded below 16 |
| `HashGenerator.ArrayBufferToHex` | src/HashGenerator.jsx:11-17 | the output has twice as many characters as the buffer has bytes, all lowercase hex |
| `HashGenerator.ArrayBufferToHexAppend` | src/HashGenerator.jsx:13-16 | `hex(a + b) == hex(a) + hex(b)` |
| `HashGenerator.ArrayBufferToHexAt` | src/HashGenerator.jsx:13-16 | byte i sits at characters 2i and 2i+1, so byte order is kept |
| `HashGenerator.HexToBytes` | src/HashGenerator.jsx:13-16 | a successful decode has half as many bytes as the text has characters |
| `HashGenerator.HexRoundTrip` | src/HashGenerator.jsx:13-16 | decoding the encoder's output gives the buffer back |
| `HashGenerator.LowerHexRoundTrip` | src/HashGenerator.jsx:13-16 | every even-length lowercase hex string is the encoding of the bytes it decodes to, so the encoder's image is exactly those strings |
| `HashGenerator.ArrayBufferToHexInjective` | src/HashGenerator.jsx:13-16 | different buffers never give the same hex text |
| `HashGenerator.Sha256HexIsDigest` | src/HashGenerator.jsx:12-16 | a 32-byte buffer gives 64 characters, which the server's structure check accepts |
| `HashGenerator.ComputeSha256` | src/HashGenerator.jsx:20-44 | empty input sets the hash to `''`; a rejected digest shows the error text; otherwise the hash is 64 lowercase hex characters that decode to the digest |
| `HashGenerator.EmptyInputComputesNoDigest` | src/HashGenerator.jsx:21-24 | on empty input the result does not depend on the digest function |
| `App.Lower` | app.py:48 | lowercasing keeps the length and maps each character on its own |
| `App.AfterLastDot` | app.py:48 | `rsplit('.', 1)[1]` is a dot-free suffix that follows a dot |
| `App.AfterLastDotUnique` | app.py:48 | the extension is the text after whichever dot has no dot after it |
| `App.AllowedFileIff` | app.py:46-48 | a name is allowed iff some dot is followed by dot-free text that lowercases into the allow-list |
| `App.LowerKeepsDots` | app.py:48 | lowercasing keeps dots where they are and makes no new ones |
| `App.AfterLastDotOfLower` | app.py:48 | the extension of the lowercased name is the lowercased extension |
| `App.LowerIdempotent` | app.py:48 | lowercasing twice is lowercasing once |
| `App.AllowedFileCaseInsensitive` | app.py:48 | a name and its lowercase form are judged alike |
| `App.NoDotRejected` | app.py:47 | a name without a dot is rejected |
| `App.OnlyLastExtensionCounts` | app.py:48 | `"a.pdf.exe"` is rejected and `"a.exe.pdf"` accepted |
| `App.UpperCaseExtensionAccepted` | app.py:48 | `"X.PDF"` is accepted |
| `App.MixedCaseExtensionAccepted` | app.py:48 | `"scan.JpEg"` is accepted |
| `App.TrailingDotRejected` | app.py:21 | `"file."` has an empty extension, which the allow-list does not hold |
| `App.RegeneratedPayloadMatchesUpload` | app.py:308 | regenerating from the stored row (columns 1, 2, 3) gives the payload built at upload (line 148) from the values inserted at lines 159-165 |
| `App.IssuerRecipientRoundTrip` | app.py:148 | the issuer and recipient lines give both fields back when the issuer has no newline |
| `App.QrPayloadRoundTrip` | app.py:148 | when hash and issuer have no newline, the payload gives hash, issuer and recipient back |
| `App.QrPayloadAmbiguousWithNewline` | app.py:148 | a newline in the issuer makes two different records share one payload |
| `App.SignatureDataFixesHash` | app.py:153 | for equal-length hashes, equal signed texts mean equal hashes and equal issuer+recipient text |
| `App.SignatureDataAmbiguous` | app.py:153 | with no separator, `("ab", "c")` and `("a", "bc")` sign the same text |

## Left out

- Hashing through `hashlib` and `crypto.subtle.digest`: these are library calls. `ComputeSha256` takes the digest as a parameter, `TextEncoder` included.
- RSA key generation, signing and verification: these are cryptography-library calls. Only the signed text is modelled.
- QR image generation: only the payload text is modelled.
- Flask routing, templates, flash messages, file save and removal, `secure_filename` and sqlite access: these are I/O. The stored row is a value (`CertificateRow`).
- Base64, JSON and metadata file helpers, and `generate_certificate_id`: these are library wrappers, file I/O or clock reads.
- DOM, timers, clipboard, fetch and FileReader code: UI and asynchronous I/O. The React state hooks are also left out. `ComputeSha256` returns the text that ends up in the `hash` state, and the `loading` flag is not modelled.
- CompareHashes: the result is modelled, but not the constant running time.
- ValidateHashStructure: `int()` also accepts non-ASCII Unicode decimal digits (for example U+0660 to U+0669). The model rejects them, so a 64-character string of such digits is accepted by the source and rejected here.
- FormatHash: for strings with characters above U+FFFF, it counts Unicode characters where JavaScript counts UTF-16 code units. For hex digests the two agree.
- CreateMetadata: the hash, issuer and recipient are modelled as strings. The source would accept any Python value and format it with `str()` in the URL.
