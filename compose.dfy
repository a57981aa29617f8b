/** The two fragment builders of the trimmomatic PE wrapper
    (bio/trimmomatic/pe/wrapper.py, compose_input_gz and compose_output_gz), and the
    parsers that read a fragment back, which show that wrapping loses nothing. */
module Compose {
  import opened Wrappers
  import opened Text
  import opened Errors

  /** Accepted compressor names. */
  const Compressors: seq<string> := ["none", "gzip", "pigz"]

  /** The compressors that put a process substitution around the path. */
  const WrappingCompressors: seq<string> := ["gzip", "pigz"]

  /** Read side: for gzip or pigz, a process substitution that decompresses `filename`
      to its standard output; for none, `filename` itself. */
  function ComposeInputGz(filename: string, compressor: string := "pigz"): (r: Result<string, ConfigError>)
    ensures r.Failure? <==> compressor !in Compressors
    ensures r.Failure? ==> r.error == UnknownCompressor(compressor)
    ensures compressor == "none" ==> r == Success(filename)
  {
    if compressor !in Compressors then
      Failure(UnknownCompressor(compressor))
    else if compressor in WrappingCompressors then
      Success(InputPrefix(compressor) + filename + ")")
    else
      Success(filename)
  }

  /** Write side: for gzip or pigz, a process substitution that compresses its standard
      input at `compressionLevel` into `filename`; for none, `filename` itself and the
      level is ignored. */
  function ComposeOutputGz(filename: string, compressor: string := "pigz", compressionLevel: string := "-5"): (r: Result<string, ConfigError>)
    ensures r.Failure? <==> compressor !in Compressors
    ensures r.Failure? ==> r.error == UnknownCompressor(compressor)
    ensures compressor == "none" ==> r == Success(filename)
  {
    if compressor !in Compressors then
      Failure(UnknownCompressor(compressor))
    else if compressor in WrappingCompressors then
      Success(OutputPrefix(compressor, compressionLevel) + filename + ")")
    else
      Success(filename)
  }

  /** Text before the path in a read-side fragment of `compressor`. */
  function InputPrefix(compressor: string): string {
    "<(" + compressor + " --decompress --stdout "
  }

  /** Text before the path in a write-side fragment of `compressor` at `level`. */
  function OutputPrefix(compressor: string, level: string): string {
    ">(" + compressor + " " + level + " > "
  }

  /** Reads a read-side fragment back into (compressor, path); None for any other text. */
  function ParseInputFragment(s: string): (r: Option<(string, string)>)
    ensures r.Some? ==> r.value.0 in WrappingCompressors && s == InputPrefix(r.value.0) + r.value.1 + ")"
  {
    var gz := StripAffixes(s, InputPrefix("gzip"), ")");
    var pz := StripAffixes(s, InputPrefix("pigz"), ")");
    if gz.Some? then Some(("gzip", gz.value))
    else if pz.Some? then Some(("pigz", pz.value))
    else None
  }

  /** Reads a write-side fragment at compression level `level` back into (compressor, path);
      None for any other text. The level is a parameter because a level is free text and
      so cannot be told apart from the path on its own. */
  function ParseOutputFragment(s: string, level: string): (r: Option<(string, string)>)
    ensures r.Some? ==> r.value.0 in WrappingCompressors && s == OutputPrefix(r.value.0, level) + r.value.1 + ")"
  {
    var gz := StripAffixes(s, OutputPrefix("gzip", level), ")");
    var pz := StripAffixes(s, OutputPrefix("pigz", level), ")");
    if gz.Some? then Some(("gzip", gz.value))
    else if pz.Some? then Some(("pigz", pz.value))
    else None
  }

  /** A wrapped read-side fragment parses back into the compressor and the path. */
  lemma InputRoundTrip(filename: string, compressor: string)
    requires compressor in WrappingCompressors
    ensures ComposeInputGz(filename, compressor).Success?
    ensures ParseInputFragment(ComposeInputGz(filename, compressor).value) == Some((compressor, filename))
  {
    var s := InputPrefix(compressor) + filename + ")";
    assert ComposeInputGz(filename, compressor).value == s;
    StripAffixesOfWrapped(InputPrefix(compressor), filename, ")");
    if compressor == "pigz" {
      // the two prefixes differ at their third character
      assert s[2] == 'p';
      assert InputPrefix("gzip")[2] == 'g';
      assert StripAffixes(s, InputPrefix("gzip"), ")").None?;
    }
  }

  /** A wrapped write-side fragment at `level` parses back into the compressor and the path. */
  lemma OutputRoundTrip(filename: string, compressor: string, level: string)
    requires compressor in WrappingCompressors
    ensures ComposeOutputGz(filename, compressor, level).Success?
    ensures ParseOutputFragment(ComposeOutputGz(filename, compressor, level).value, level) == Some((compressor, filename))
  {
    var s := OutputPrefix(compressor, level) + filename + ")";
    assert ComposeOutputGz(filename, compressor, level).value == s;
    StripAffixesOfWrapped(OutputPrefix(compressor, level), filename, ")");
    if compressor == "pigz" {
      assert s[2] == 'p';
      assert OutputPrefix("gzip", level)[2] == 'g';
      assert StripAffixes(s, OutputPrefix("gzip", level), ")").None?;
    }
  }

  /** The exact read-side fragment for gzip and pigz. */
  lemma InputFragmentShape(filename: string, compressor: string)
    requires compressor in WrappingCompressors
    ensures ComposeInputGz(filename, compressor) == Success(InputPrefix(compressor) + filename + ")")
  {
  }

  /** The exact write-side fragment for gzip and pigz. */
  lemma OutputFragmentShape(filename: string, compressor: string, level: string)
    requires compressor in WrappingCompressors
    ensures ComposeOutputGz(filename, compressor, level) == Success(">(" + compressor + " " + level + " > " + filename + ")")
  {
  }

  /** Two wrapped read-side fragments are equal only when they name the same
      compressor and the same path. */
  lemma InputFragmentInjective(f1: string, c1: string, f2: string, c2: string)
    requires c1 in WrappingCompressors && c2 in WrappingCompressors
    requires ComposeInputGz(f1, c1) == ComposeInputGz(f2, c2)
    ensures f1 == f2 && c1 == c2
  {
    InputRoundTrip(f1, c1);
    InputRoundTrip(f2, c2);
  }

  /** Two wrapped write-side fragments at one level are equal only when they name the
      same compressor and the same path. */
  lemma OutputFragmentInjective(f1: string, c1: string, f2: string, c2: string, level: string)
    requires c1 in WrappingCompressors && c2 in WrappingCompressors
    requires ComposeOutputGz(f1, c1, level) == ComposeOutputGz(f2, c2, level)
    ensures f1 == f2 && c1 == c2
  {
    OutputRoundTrip(f1, c1, level);
    OutputRoundTrip(f2, c2, level);
  }

  /** The none, pigz and error examples of compose_input_gz's documentation, with the
      error as a value. */
  lemma InputDocumentedExamples()
    ensures ComposeInputGz("test", "none") == Success("test")
    ensures ComposeInputGz("test", "pigz") == Success("<(pigz --decompress --stdout test)")
    ensures ComposeInputGz("test", "xz") == Failure(UnknownCompressor("xz"))
  {
    assert InputPrefix("pigz") + "test" + ")" == "<(pigz --decompress --stdout test)";
  }

  /** The gzip example of compose_input_gz's documentation. */
  lemma InputGzipExample()
    ensures ComposeInputGz("test", "gzip") == Success("<(gzip --decompress --stdout test)")
  {
    assert InputPrefix("gzip") + "test" + ")" == "<(gzip --decompress --stdout test)";
  }

  /** The examples of compose_output_gz's documentation, with the default level filled in. */
  lemma OutputDocumentedExamples()
    ensures ComposeOutputGz("test", "none") == Success("test")
    ensures ComposeOutputGz("test", "pigz") == Success(">(pigz -5 > test)")
    ensures ComposeOutputGz("test", "gzip", "-9") == Success(">(gzip -9 > test)")
    ensures ComposeOutputGz("test", "bzip2") == Failure(UnknownCompressor("bzip2"))
  {
    assert OutputPrefix("pigz", "-5") + "test" + ")" == ">(pigz -5 > test)";
    assert OutputPrefix("gzip", "-9") + "test" + ")" == ">(gzip -9 > test)";
  }
}
