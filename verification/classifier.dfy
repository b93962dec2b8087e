/** Format classification: `is_supported_format` and the "already EPUB" test of `handle_book`. */
module Classifier {
  import opened Wrappers
  import opened Text

  /** The suffix list of `is_supported_format`, in source order. */
  const SupportedFormats: seq<string> := [".epub", ".mobi", ".pdf", ".txt", ".doc", ".docx"]

  /** The same formats named by their extension alone: the reference the suffix test is checked against. */
  const SupportedExtensions: set<string> := {"epub", "mobi", "pdf", "txt", "doc", "docx"}

  /** `any(file_name.lower().endswith(fmt) for fmt in supported_formats)`. */
  predicate IsSupportedFormat(fileName: string) {
    exists i :: 0 <= i < |SupportedFormats| && EndsWith(Lower(fileName), SupportedFormats[i])
  }

  /** `doc.file_name.lower().endswith('.epub')`. */
  predicate IsEpub(fileName: string) {
    EndsWith(Lower(fileName), ".epub")
  }

  /** The lower-cased text after the last dot of a name, if it has a dot. */
  function Extension(fileName: string): (r: Option<string>)
    ensures r.None? <==> '.' !in fileName
  {
    match LastIndexOf(fileName, '.')
    case None => None
    case Some(k) => Some(Lower(fileName[k + 1..]))
  }

  /** A lower-cased name ending in `"." + e`, with no dot in `e`, has extension `e`. */
  lemma ExtensionOfDottedSuffix(fileName: string, e: string)
    requires '.' !in e
    requires EndsWith(Lower(fileName), "." + e)
    ensures Extension(fileName) == Some(e)
  {
    var k := |fileName| - |e| - 1;
    DotAfterWhichNoDot(fileName, e);
    LastIndexOfAt(fileName, '.', k);
    LowerOfTail(fileName, e);
    var tail := fileName[k + 1..];
    assert tail == fileName[|fileName| - |e|..];
    assert Extension(fileName) == Some(Lower(tail));
  }

  /** What follows the dot of a folded `"." + e` ending is `e`. */
  lemma LowerOfTail(fileName: string, e: string)
    requires EndsWith(Lower(fileName), "." + e)
    ensures Lower(fileName[|fileName| - |e|..]) == e
  {
    var k := |fileName| - |e| - 1;
    LowerSlice(fileName, k + 1, |fileName|);
    var low := Lower(fileName);
    assert low[k..] == "." + e;
    assert low[k + 1..] == low[k..][1..];
  }

  /** Where the folded name ends in `"." + e`, the name has its dot and no later dot. */
  lemma DotAfterWhichNoDot(fileName: string, e: string)
    requires '.' !in e
    requires EndsWith(Lower(fileName), "." + e)
    ensures fileName[|fileName| - |e| - 1] == '.'
    ensures forall j :: |fileName| - |e| - 1 < j < |fileName| ==> fileName[j] != '.'
  {
    var low := Lower(fileName);
    var k := |fileName| - |e| - 1;
    assert low[k..] == "." + e;
    assert low[k] == low[k..][0];
    LowerDotAt(fileName, k);
    forall j | k < j < |fileName|
      ensures fileName[j] != '.'
    {
      assert low[j] == low[k..][j - k] == e[j - k - 1];
      LowerDotAt(fileName, j);
    }
  }

  /** A name whose extension is `e` ends, once lower-cased, in `"." + e`. */
  lemma DottedSuffixOfExtension(fileName: string)
    requires Extension(fileName).Some?
    ensures EndsWith(Lower(fileName), "." + Extension(fileName).value)
  {
    var k := LastIndexOf(fileName, '.').value;
    var low := Lower(fileName);
    LowerSlice(fileName, k + 1, |fileName|);
    LowerCharDot(fileName[k]);
    assert low[k..] == [low[k]] + low[k + 1..];
  }

  /** Each suffix of the list is a dot followed by one of the extensions. */
  lemma FormatIsDottedExtension(i: nat)
    requires i < |SupportedFormats|
    ensures SupportedFormats[i] == "." + SupportedFormats[i][1..]
    ensures SupportedFormats[i][1..] in SupportedExtensions
    ensures '.' !in SupportedFormats[i][1..]
  {
  }

  /** Each extension, with a dot in front, is a suffix of the list. */
  lemma ExtensionIsListedFormat(e: string)
    requires e in SupportedExtensions
    ensures "." + e in SupportedFormats
  {
    if e == "epub" {
      assert SupportedFormats[0] == "." + e;
    } else if e == "mobi" {
      assert SupportedFormats[1] == "." + e;
    } else if e == "pdf" {
      assert SupportedFormats[2] == "." + e;
    } else if e == "txt" {
      assert SupportedFormats[3] == "." + e;
    } else if e == "doc" {
      assert SupportedFormats[4] == "." + e;
    } else {
      assert SupportedFormats[5] == "." + e;
    }
  }

  /** A name passing the suffix test has one of the six extensions. */
  lemma SupportedHasKnownExtension(fileName: string)
    requires IsSupportedFormat(fileName)
    ensures Extension(fileName).Some? && Extension(fileName).value in SupportedExtensions
  {
    var i :| 0 <= i < |SupportedFormats| && EndsWith(Lower(fileName), SupportedFormats[i]);
    FormatIsDottedExtension(i);
    ExtensionOfDottedSuffix(fileName, SupportedFormats[i][1..]);
  }

  /** A name with one of the six extensions passes the suffix test. */
  lemma KnownExtensionIsSupported(fileName: string)
    requires Extension(fileName).Some? && Extension(fileName).value in SupportedExtensions
    ensures IsSupportedFormat(fileName)
  {
    var e := Extension(fileName).value;
    DottedSuffixOfExtension(fileName);
    ExtensionIsListedFormat(e);
    var i :| 0 <= i < |SupportedFormats| && SupportedFormats[i] == "." + e;
    assert EndsWith(Lower(fileName), SupportedFormats[i]);
  }

  /** The suffix test accepts exactly the names whose extension is one of the six formats. */
  lemma SupportedIffKnownExtension(fileName: string)
    ensures IsSupportedFormat(fileName) <==>
      Extension(fileName).Some? && Extension(fileName).value in SupportedExtensions
  {
    if IsSupportedFormat(fileName) {
      SupportedHasKnownExtension(fileName);
    }
    if Extension(fileName).Some? && Extension(fileName).value in SupportedExtensions {
      KnownExtensionIsSupported(fileName);
    }
  }

  /** The EPUB test holds exactly for names whose extension is `epub`. */
  lemma EpubIffExtension(fileName: string)
    ensures IsEpub(fileName) <==> Extension(fileName) == Some("epub")
  {
    if IsEpub(fileName) {
      assert ".epub" == "." + "epub";
      ExtensionOfDottedSuffix(fileName, "epub");
    }
    if Extension(fileName) == Some("epub") {
      DottedSuffixOfExtension(fileName);
    }
  }

  /** Every name `handle_book` sends directly also passes the supported-format test. */
  lemma EpubIsSupported(fileName: string)
    ensures IsEpub(fileName) ==> IsSupportedFormat(fileName)
  {
    if IsEpub(fileName) {
      assert EndsWith(Lower(fileName), SupportedFormats[0]);
    }
  }

  /** The three outcomes of the two tests in `handle_book`. */
  datatype Kind = Native | Convertible | Unsupported

  /** `handle_book`'s branching: reject unless supported, then send directly when EPUB, else convert. */
  function Classify(fileName: string): (k: Kind)
    ensures k == Native <==> Extension(fileName) == Some("epub")
    ensures k == Convertible <==>
      Extension(fileName).Some? && Extension(fileName).value in SupportedExtensions - {"epub"}
    ensures k == Unsupported <==>
      !(Extension(fileName).Some? && Extension(fileName).value in SupportedExtensions)
  {
    SupportedIffKnownExtension(fileName);
    EpubIffExtension(fileName);
    if !IsSupportedFormat(fileName) then Unsupported
    else if IsEpub(fileName) then Native
    else Convertible
  }

  /** Case does not matter: an upper-case PDF name is accepted and converted. */
  lemma UpperCasePdfIsConverted()
    ensures IsSupportedFormat("BOOK.PDF")
    ensures Classify("BOOK.PDF") == Convertible
  {
    assert Lower("BOOK.PDF") == "book.pdf";
    assert EndsWith(Lower("BOOK.PDF"), SupportedFormats[2]);
    assert !EndsWith("book.pdf", ".epub");
  }

  /** An upper-case EPUB name is sent as it is. */
  lemma UpperCaseEpubIsNative()
    ensures Classify("Novel.EPUB") == Native
  {
    assert Lower("Novel.EPUB") == "novel.epub";
    EpubIsSupported("Novel.EPUB");
  }

  /** A ZIP archive is rejected. */
  lemma ZipRejected()
    ensures !IsSupportedFormat("x.zip")
    ensures Classify("x.zip") == Unsupported
  {
    assert Lower("x.zip") == "x.zip";
    assert EndsWith(Lower("x.zip"), ".zip");
    ExtensionOfDottedSuffix("x.zip", "zip");
    SupportedIffKnownExtension("x.zip");
  }

  /** A bare extension without its dot is rejected. */
  lemma BareExtensionRejected()
    ensures !IsSupportedFormat("pdf")
  {
    SupportedIffKnownExtension("pdf");
    assert '.' !in "pdf";
  }
}
