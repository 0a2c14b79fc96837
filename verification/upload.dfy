/**
 * The upload filter: a file is accepted when its name has an extension,
 * the text after its last dot, that is one of the allowed extensions once
 * lower-cased.
 */
module Upload {
  import opened Strings

  const AllowedExtensions: set<string> := {"pdf"}

  /** `filename.rsplit('.', 1)[1]` when the name has a dot: the text after
      the last dot. */
  function Extension(filename: string): string {
    var parts := Split(filename, '.');
    parts[|parts| - 1]
  }

  /** `allowed_file` */
  predicate AllowedFile(filename: string) {
    '.' in filename && Lower(Extension(filename)) in AllowedExtensions
  }

  /** Whatever precedes the last dot, the extension is what follows it. */
  lemma {:induction false} ExtensionAfterLastDot(stem: string, ext: string)
    requires '.' !in ext
    ensures |Split(stem + ['.'] + ext, '.')| >= 2
    ensures Extension(stem + ['.'] + ext) == ext
    decreases |stem|
  {
    var s := stem + ['.'] + ext;
    if stem == [] {
      assert s == ['.'] + ext && s[1..] == ext;
      SplitNoSep(ext, '.');
    } else {
      assert s[1..] == stem[1..] + ['.'] + ext;
      ExtensionAfterLastDot(stem[1..], ext);
    }
  }

  /** Every name with a dot splits at its last dot. */
  lemma LastDot(filename: string)
    requires '.' in filename
    ensures exists stem, ext :: SplitsAtLastDot(filename, stem, ext)
  {
    LastDotIndex(filename, |filename|);
    var k :| 0 <= k < |filename| && filename[k] == '.' &&
             forall j :: k < j < |filename| ==> filename[j] != '.';
    var stem, ext := filename[..k], filename[k + 1..];
    assert forall j :: 0 <= j < |ext| ==> ext[j] == filename[k + 1 + j] && ext[j] != '.';
    assert filename == stem + ['.'] + ext && '.' !in ext;
    assert SplitsAtLastDot(filename, stem, ext);
  }

  /** `filename` is `stem`, a dot, and a dot-free `ext`. */
  predicate SplitsAtLastDot(filename: string, stem: string, ext: string) {
    filename == stem + ['.'] + ext && '.' !in ext
  }

  lemma {:induction false} LastDotIndex(s: string, n: nat)
    requires n <= |s| && '.' in s
    requires forall j :: n <= j < |s| ==> s[j] != '.'
    ensures exists k :: 0 <= k < |s| && s[k] == '.' && forall j :: k < j < |s| ==> s[j] != '.'
    decreases n
  {
    if n > 0 && s[n - 1] != '.' {
      LastDotIndex(s, n - 1);
    }
  }

  /** A name is accepted exactly when it has a dot and the text after its
      last dot is `pdf` in any letter case; the part before is not looked
      at, and a name without a dot is refused. */
  lemma AllowedFileSpec(stem: string, ext: string)
    requires '.' !in ext
    ensures AllowedFile(stem + ['.'] + ext) <==> Lower(ext) == "pdf"
  {
    ExtensionAfterLastDot(stem, ext);
    assert (stem + ['.'] + ext)[|stem|] == '.';
  }

  /** The decision depends on the extension alone. */
  lemma AllowedFileByExtension(filename: string)
    ensures AllowedFile(filename) <==>
              exists stem, ext :: SplitsAtLastDot(filename, stem, ext) && Lower(ext) == "pdf"
  {
    if '.' in filename {
      LastDot(filename);
      var stem, ext :| SplitsAtLastDot(filename, stem, ext);
      AllowedFileSpec(stem, ext);
      if exists stem', ext' :: SplitsAtLastDot(filename, stem', ext') && Lower(ext') == "pdf" {
        var stem', ext' :| SplitsAtLastDot(filename, stem', ext') && Lower(ext') == "pdf";
        AllowedFileSpec(stem', ext');
      }
    }
  }

  /** Only the last extension counts: `resume.pdf.exe` is refused, and so
      is any name ending in `.pdf.exe`. */
  lemma DoubleExtensionRefused(stem: string)
    ensures !AllowedFile(stem + ".pdf.exe")
  {
    assert stem + ".pdf" + ['.'] + "exe" == stem + ".pdf.exe";
    AllowedFileSpec(stem + ".pdf", "exe");
    assert Lower("exe")[0] == 'e';
  }

  /** Any name ending in `.pdf` or `.PDF` is accepted, whatever precedes the
      dot: `a.b.pdf`, `CV.PDF` and `.pdf` alike. */
  lemma PdfSuffixAccepted(stem: string)
    ensures AllowedFile(stem + ".pdf")
    ensures AllowedFile(stem + ".PDF")
  {
    assert stem + ['.'] + "pdf" == stem + ".pdf";
    AllowedFileSpec(stem, "pdf");
    assert stem + ['.'] + "PDF" == stem + ".PDF";
    AllowedFileSpec(stem, "PDF");
  }

  /** A name ending in a dot, such as `x.`, has an empty extension and is
      refused. */
  lemma EmptyExtensionRefused(stem: string)
    ensures !AllowedFile(stem + ".")
  {
    assert stem + ['.'] + "" == stem + ".";
    AllowedFileSpec(stem, "");
  }
}
