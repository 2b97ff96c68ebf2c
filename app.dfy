/**
 * The pure pieces of the Flask application: the upload filename filter, the
 * QR payload text (built the same way on upload and on regeneration) and the
 * text that is signed.
 */
module App {
  import opened Wrappers

  const AllowedExtensions: set<string> := {"png", "jpg", "jpeg", "pdf", "txt"}

  /**
   * `str.lower()` on one character, for ASCII letters. Other characters are
   * kept: no other character lowercases to text made only of the letters of the
   * allow-list, so membership in it is decided exactly as Python decides it.
   */
  function LowerChar(c: char): char {
    if 'A' <= c <= 'Z' then (c as int - 'A' as int + 'a' as int) as char else c
  }

  function Lower(s: string): (r: string)
    ensures |r| == |s|
    ensures forall i :: 0 <= i < |s| ==> r[i] == LowerChar(s[i])
  {
    if s == [] then [] else [LowerChar(s[0])] + Lower(s[1..])
  }

  /** `filename.rsplit('.', 1)[1]`: everything after the last dot. */
  function AfterLastDot(filename: string): (ext: string)
    requires '.' in filename
    ensures |ext| < |filename|
    ensures filename[|filename| - |ext| - 1] == '.'
    ensures ext == filename[|filename| - |ext|..]
    ensures '.' !in ext
  {
    var last := filename[|filename| - 1];
    if last == '.' then ""
    else
      var init := filename[..|filename| - 1];
      assert '.' in init by {
        var k :| 0 <= k < |filename| && filename[k] == '.';
        assert init[k] == '.';
      }
      AfterLastDot(init) + [last]
  }

  /** The extension is the text after any dot that has no dot after it. */
  lemma AfterLastDotUnique(filename: string, k: nat)
    requires k < |filename| && filename[k] == '.' && '.' !in filename[k + 1..]
    ensures AfterLastDot(filename) == filename[k + 1..]
  {
    var ext := AfterLastDot(filename);
    var j := |filename| - |ext| - 1;
    assert j == k;
  }

  /** `allowed_file`. */
  predicate AllowedFile(filename: string) {
    '.' in filename && Lower(AfterLastDot(filename)) in AllowedExtensions
  }

  /**
   * A name is allowed exactly when some dot in it is followed by dot-free text
   * that lowercases to an allowed extension.
   */
  lemma AllowedFileIff(filename: string)
    ensures AllowedFile(filename) <==>
              exists k :: 0 <= k < |filename| && filename[k] == '.' && '.' !in filename[k + 1..]
                          && Lower(filename[k + 1..]) in AllowedExtensions
  {
    if AllowedFile(filename) {
      var ext := AfterLastDot(filename);
      var k := |filename| - |ext| - 1;
      assert filename[k + 1..] == ext;
    }
    if exists k :: 0 <= k < |filename| && filename[k] == '.' && '.' !in filename[k + 1..]
                   && Lower(filename[k + 1..]) in AllowedExtensions {
      var k :| 0 <= k < |filename| && filename[k] == '.' && '.' !in filename[k + 1..]
               && Lower(filename[k + 1..]) in AllowedExtensions;
      assert '.' in filename;
      var ext := AfterLastDot(filename);
      AfterLastDotUnique(filename, k);
    }
  }

  /** Lower-casing keeps every dot where it was and no other character becomes one. */
  lemma LowerKeepsDots(s: string)
    ensures forall i :: 0 <= i < |s| ==> (Lower(s)[i] == '.' <==> s[i] == '.')
  {
  }

  /** Lowering commutes with taking a suffix. */
  lemma LowerSuffix(s: string, k: nat)
    requires k <= |s|
    ensures Lower(s)[k..] == Lower(s[k..])
  {
  }

  /** The extension of the lowered name is the lowered extension. */
  lemma AfterLastDotOfLower(filename: string)
    requires '.' in filename
    ensures '.' in Lower(filename)
    ensures AfterLastDot(Lower(filename)) == Lower(AfterLastDot(filename))
  {
    LowerKeepsDots(filename);
    var ext := AfterLastDot(filename);
    var k := |filename| - |ext| - 1;
    var low := Lower(filename);
    assert low[k] == '.';
    LowerSuffix(filename, k + 1);
    assert filename[k + 1..] == ext;
    assert low[k + 1..] == Lower(ext);
    assert '.' !in low[k + 1..] by {
      forall i | 0 <= i < |ext| ensures Lower(ext)[i] != '.' {
        assert ext[i] != '.';
      }
    }
    AfterLastDotUnique(low, k);
  }

  /** Lowering is idempotent. */
  lemma LowerIdempotent(s: string)
    ensures Lower(Lower(s)) == Lower(s)
  {
    assert |Lower(Lower(s))| == |Lower(s)|;
  }

  /** The check ignores case: a name and its lowercase form are judged alike. */
  lemma AllowedFileCaseInsensitive(filename: string)
    ensures AllowedFile(Lower(filename)) == AllowedFile(filename)
  {
    LowerKeepsDots(filename);
    if '.' in filename {
      AfterLastDotOfLower(filename);
      LowerIdempotent(AfterLastDot(filename));
    } else {
      assert '.' !in Lower(filename);
    }
  }

  /** A name without a dot is never allowed. */
  lemma NoDotRejected(filename: string)
    requires '.' !in filename
    ensures !AllowedFile(filename)
  {
  }

  /** Only the text after the last dot counts: "a.pdf.exe" is rejected, "a.exe.pdf" accepted. */
  lemma OnlyLastExtensionCounts()
    ensures !AllowedFile("a.pdf.exe")
    ensures AllowedFile("a.exe.pdf")
  {
    var f1 := "a.pdf.exe";
    AfterLastDotUnique(f1, 5);
    assert f1[6..] == "exe";
    var low1 := Lower("exe");
    assert low1[0] == 'e' && low1[1] == 'x' && low1[2] == 'e';
    assert low1 == "exe";
    var f2 := "a.exe.pdf";
    AfterLastDotUnique(f2, 5);
    assert f2[6..] == "pdf";
    var low2 := Lower("pdf");
    assert low2[0] == 'p' && low2[1] == 'd' && low2[2] == 'f';
    assert low2 == "pdf";
  }

  /** Case is ignored: "X.PDF" is accepted. */
  lemma UpperCaseExtensionAccepted()
    ensures AllowedFile("X.PDF")
  {
    var f := "X.PDF";
    AfterLastDotUnique(f, 1);
    assert f[2..] == "PDF";
    var low := Lower("PDF");
    assert low[0] == 'p' && low[1] == 'd' && low[2] == 'f';
    assert low == "pdf";
  }

  /** Mixed case is ignored too: "scan.JpEg" is accepted. */
  lemma MixedCaseExtensionAccepted()
    ensures AllowedFile("scan.JpEg")
  {
    var f := "scan.JpEg";
    AfterLastDotUnique(f, 4);
    assert f[5..] == "JpEg";
    var low := Lower("JpEg");
    assert low[0] == 'j' && low[1] == 'p' && low[2] == 'e' && low[3] == 'g';
    assert low == "jpeg";
  }

  /** A trailing dot leaves an empty extension, which is not allowed. */
  lemma TrailingDotRejected()
    ensures !AllowedFile("file.")
  {
    var f := "file.";
    AfterLastDotUnique(f, 4);
    assert f[5..] == "";
  }

  /** The text encoded in the QR code for a certificate. */
  function QrPayload(certificateHash: string, issuerName: string, recipientName: string): string {
    HashLabel + certificateHash + "\n" + IssuerLabel + issuerName + "\n" + RecipientLabel + recipientName
  }

  const HashLabel: string := "Certificate Hash: "
  const IssuerLabel: string := "Issuer: "
  const RecipientLabel: string := "Recipient: "

  /**
   * A row of the `certificates` table, in the column order of its schema:
   * id, certificate_hash, issuer_name, recipient_name, issue_date,
   * certificate_data, digital_signature, qr_code_path, created_at.
   */
  datatype CertificateRow = CertificateRow(
    id: int,
    certificateHash: string,
    issuerName: string,
    recipientName: string,
    issueDate: string,
    certificateData: string,
    digitalSignature: string,
    qrCodePath: string,
    createdAt: string)

  /** `certificate[k]` for the text columns of a fetched row. */
  function Column(row: CertificateRow, k: nat): string
    requires 1 <= k <= 8
  {
    match k
    case 1 => row.certificateHash
    case 2 => row.issuerName
    case 3 => row.recipientName
    case 4 => row.issueDate
    case 5 => row.certificateData
    case 6 => row.digitalSignature
    case 7 => row.qrCodePath
    case _ => row.createdAt
  }

  /** The row the upload handler inserts; id and created_at are filled in by the database. */
  function InsertedRow(id: int, certificateHash: string, issuerName: string, recipientName: string,
                       issueDate: string, filename: string, signature: string, qrPath: string,
                       createdAt: string): CertificateRow
  {
    CertificateRow(id, certificateHash, issuerName, recipientName, issueDate, filename, signature,
                   qrPath, createdAt)
  }

  /** The payload `generate_qr` rebuilds from a fetched row. */
  function RegeneratedQrPayload(row: CertificateRow): string {
    QrPayload(Column(row, 1), Column(row, 2), Column(row, 3))
  }

  /** Regenerating the QR code for a stored certificate yields the payload made at upload. */
  lemma RegeneratedPayloadMatchesUpload(id: int, certificateHash: string, issuerName: string,
                                        recipientName: string, issueDate: string, filename: string,
                                        signature: string, qrPath: string, createdAt: string)
    ensures RegeneratedQrPayload(InsertedRow(id, certificateHash, issuerName, recipientName, issueDate,
                                             filename, signature, qrPath, createdAt))
            == QrPayload(certificateHash, issuerName, recipientName)
  {
  }

  /** The text before the first newline and the text after it. */
  function SplitAtNewline(s: string): (r: Option<(string, string)>)
    ensures r.Some? ==> '\n' !in r.value.0 && s == r.value.0 + "\n" + r.value.1
    ensures r.None? ==> '\n' !in s
  {
    if s == [] then None
    else if s[0] == '\n' then Some(([], s[1..]))
    else
      match SplitAtNewline(s[1..])
      case None => None
      case Some((before, after)) => Some(([s[0]] + before, after))
  }

  /** Strips a known prefix. */
  function DropPrefix(prefix: string, s: string): (r: Option<string>)
    ensures r.Some? <==> |prefix| <= |s| && s[..|prefix|] == prefix
    ensures r.Some? ==> s == prefix + r.value
  {
    if |prefix| <= |s| && s[..|prefix|] == prefix then Some(s[|prefix|..]) else None
  }

  /** Reads issuer and recipient back out of the last two lines of a QR payload. */
  function ParseIssuerRecipient(lines: string): Option<(string, string)> {
    match DropPrefix(IssuerLabel, lines)
    case None => None
    case Some(rest) =>
      match SplitAtNewline(rest)
      case None => None
      case Some((i, rest2)) =>
        match DropPrefix(RecipientLabel, rest2)
        case None => None
        case Some(r) => Some((i, r))
  }

  /** Reads the three fields back out of a QR payload. */
  function ParseQrPayload(payload: string): Option<(string, string, string)> {
    match DropPrefix(HashLabel, payload)
    case None => None
    case Some(rest) =>
      match SplitAtNewline(rest)
      case None => None
      case Some((h, lines)) =>
        match ParseIssuerRecipient(lines)
        case None => None
        case Some((i, r)) => Some((h, i, r))
  }

  /** The first newline of `a + "\n" + b` is the one after a, when a has none. */
  lemma {:induction false} SplitAtNewlineFirst(a: string, b: string)
    requires '\n' !in a
    ensures SplitAtNewline(a + "\n" + b) == Some((a, b))
    decreases |a|
  {
    var s := a + "\n" + b;
    if a == [] {
      assert s[1..] == b;
    } else {
      assert s[0] == a[0];
      assert s[1..] == a[1..] + "\n" + b;
      SplitAtNewlineFirst(a[1..], b);
      assert [a[0]] + a[1..] == a;
    }
  }

  /** Stripping a prefix from text that starts with it. */
  lemma DropPrefixOfConcat(prefix: string, rest: string)
    ensures DropPrefix(prefix, prefix + rest) == Some(rest)
  {
    assert (prefix + rest)[..|prefix|] == prefix;
  }

  /** The issuer and recipient lines read back, when the issuer has no newline. */
  lemma IssuerRecipientRoundTrip(issuerName: string, recipientName: string)
    requires '\n' !in issuerName
    ensures ParseIssuerRecipient(IssuerLabel + issuerName + "\n" + RecipientLabel + recipientName)
            == Some((issuerName, recipientName))
  {
    var rest := issuerName + "\n" + (RecipientLabel + recipientName);
    assert IssuerLabel + issuerName + "\n" + RecipientLabel + recipientName == IssuerLabel + rest;
    DropPrefixOfConcat(IssuerLabel, rest);
    SplitAtNewlineFirst(issuerName, RecipientLabel + recipientName);
    DropPrefixOfConcat(RecipientLabel, recipientName);
  }

  /** When hash and issuer have no newline, the payload gives all three fields back. */
  lemma QrPayloadRoundTrip(certificateHash: string, issuerName: string, recipientName: string)
    requires '\n' !in certificateHash && '\n' !in issuerName
    ensures ParseQrPayload(QrPayload(certificateHash, issuerName, recipientName))
            == Some((certificateHash, issuerName, recipientName))
  {
    var lines := IssuerLabel + issuerName + "\n" + RecipientLabel + recipientName;
    var rest := certificateHash + "\n" + lines;
    assert QrPayload(certificateHash, issuerName, recipientName) == HashLabel + rest;
    DropPrefixOfConcat(HashLabel, rest);
    SplitAtNewlineFirst(certificateHash, lines);
    IssuerRecipientRoundTrip(issuerName, recipientName);
  }

  /** A newline in the issuer lets two different records share a payload. */
  lemma QrPayloadAmbiguousWithNewline(h: string)
    ensures QrPayload(h, "A\nRecipient: B", "C") == QrPayload(h, "A", "B\nRecipient: C")
  {
  }

  /** The signed text: hash, issuer and recipient concatenated without separators. */
  function SignatureData(certificateHash: string, issuerName: string, recipientName: string): string {
    certificateHash + issuerName + recipientName
  }

  /** Between two signed texts of equal-length hashes, equal texts mean equal hashes. */
  lemma SignatureDataFixesHash(h1: string, i1: string, r1: string, h2: string, i2: string, r2: string)
    requires |h1| == |h2|
    requires SignatureData(h1, i1, r1) == SignatureData(h2, i2, r2)
    ensures h1 == h2 && i1 + r1 == i2 + r2
  {
    var s := SignatureData(h1, i1, r1);
    assert s[..|h1|] == h1;
    assert SignatureData(h2, i2, r2)[..|h2|] == h2;
    assert s[|h1|..] == i1 + r1;
    assert SignatureData(h2, i2, r2)[|h2|..] == i2 + r2;
  }

  /** Without a separator the split between issuer and recipient is lost. */
  lemma SignatureDataAmbiguous(h: string)
    ensures SignatureData(h, "ab", "c") == SignatureData(h, "a", "bc")
  {
  }
}
