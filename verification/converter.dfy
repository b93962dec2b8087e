/** `convert_to_kindle_format`: derive the `.epub` output path and run the
    external `ebook-convert` tool, here a boolean oracle. */
module Converter {
  import opened Wrappers
  import opened Text
  import opened Classifier

  const TargetSuffix: string := ".epub"

  /** `input_path.rsplit('.', 1)[0]`: everything before the last dot, or the whole path without one. */
  function Stem(inputPath: string): (stem: string)
    ensures stem <= inputPath
    ensures stem == inputPath <==> '.' !in inputPath
    ensures stem != inputPath ==> inputPath[|stem|] == '.' && '.' !in inputPath[|stem| + 1..]
  {
    match LastIndexOf(inputPath, '.')
    case None => inputPath
    case Some(k) => inputPath[..k]
  }

  /** The output path: the input with its last dot-suffix, if any, replaced by `.epub`. */
  function OutputPath(inputPath: string): (r: string)
    ensures EndsWith(r, TargetSuffix)
    ensures r[..|r| - |TargetSuffix|] <= inputPath
    ensures var dropped := inputPath[|r| - |TargetSuffix|..];
      if dropped == [] then '.' !in inputPath else dropped[0] == '.' && '.' !in dropped[1..]
  {
    var r := Stem(inputPath) + TargetSuffix;
    assert r[..|r| - |TargetSuffix|] == Stem(inputPath);
    r
  }

  /** Replacing `"." + ext` by `.epub`, when `ext` has no dot. */
  lemma OutputPathReplacesLastSuffix(stem: string, ext: string)
    requires '.' !in ext
    ensures OutputPath(stem + "." + ext) == stem + TargetSuffix
  {
    var p := stem + "." + ext;
    LastIndexOfAt(p, '.', |stem|);
    assert p[..|stem|] == stem;
  }

  /** A path without any dot just gains `.epub`. */
  lemma OutputPathOfDotless(inputPath: string)
    requires '.' !in inputPath
    ensures OutputPath(inputPath) == inputPath + TargetSuffix
  {
  }

  /** A name with an extension is its stem, a dot, and that extension (up to case). */
  lemma NameSplitsAtLastDot(name: string)
    requires Extension(name).Some?
    ensures var k := |name| - |Extension(name).value| - 1;
      0 <= k && name == name[..k] + "." + name[k + 1..] && '.' !in name[k + 1..]
  {
    var k := LastIndexOf(name, '.').value;
    assert |Extension(name).value| == |name| - k - 1;
    assert name == name[..k] + [name[k]] + name[k + 1..];
  }

  /** For a supported upload saved under `dir`, the output keeps the name's stem and gains `.epub`. */
  lemma SupportedOutputKeepsStem(dir: string, name: string)
    requires IsSupportedFormat(name)
    ensures Extension(name).Some?
    ensures OutputPath(dir + name) == dir + name[..|name| - |Extension(name).value| - 1] + TargetSuffix
  {
    SupportedIffKnownExtension(name);
    NameSplitsAtLastDot(name);
    var k := |name| - |Extension(name).value| - 1;
    var stem := name[..k];
    var tail := name[k + 1..];
    assert dir + name == (dir + stem) + "." + tail by {
      assert name == stem + "." + tail;
    }
    OutputPathReplacesLastSuffix(dir + stem, tail);
  }

  /** A path that already ends in `.epub` passes the EPUB test. */
  lemma EpubSuffixIsEpub(path: string)
    requires EndsWith(path, TargetSuffix)
    ensures IsEpub(path)
  {
    assert Lower(TargetSuffix) == TargetSuffix;
    EndsWithLower(path, TargetSuffix);
  }

  /** Only an EPUB name can be its own conversion output. */
  lemma OutputPathDiffersUnlessEpub(path: string)
    ensures OutputPath(path) == path ==> IsEpub(path)
  {
    if OutputPath(path) == path {
      EpubSuffixIsEpub(path);
    }
  }

  datatype ConvertError = ConversionFailed

  /** `convert_to_kindle_format(input_path)`: the output path when the tool succeeds, an error otherwise. */
  function Convert(inputPath: string, toolSucceeds: bool): (r: Result<string, ConvertError>)
    ensures r.Success? <==> toolSucceeds
    ensures r.Success? ==> r.value == OutputPath(inputPath)
  {
    if toolSucceeds then Success(OutputPath(inputPath)) else Failure(ConversionFailed)
  }
}
