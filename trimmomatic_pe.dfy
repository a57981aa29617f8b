/** The module-level script of bio/trimmomatic/pe/wrapper.py: read the rule's
    parameters, validate the pigz mode, wrap the inputs and outputs that the mode
    selects, and build the `trimmomatic PE` command line. The workflow framework's
    injected object becomes the explicit values `Reads`, `TrimmedReads`, `Params` and
    the preformatted log redirection `log`. */
module TrimmomaticPE {
  import opened Wrappers
  import opened Text
  import opened Compose
  import opened Errors

  /** Accepted values of the `pigz` parameter. */
  const PigzModes: seq<string> := ["none", "input", "output", "both"]

  /** Modes under which the two inputs are decompressed by pigz. */
  const InputModes: seq<string> := ["input", "both"]

  /** Modes under which the four outputs are compressed by pigz. */
  const OutputModes: seq<string> := ["output", "both"]

  /** Value of the `pigz` parameter when the rule does not set it; it is not one of PigzModes. */
  const DefaultPigz: string := ""

  /** Value of the `compression_level` parameter when the rule does not set it. */
  const DefaultCompressionLevel: string := "-5"

  /** The rule's inputs: the forward and reverse read files. */
  datatype Reads = Reads(r1: string, r2: string)

  /** The rule's outputs: paired and unpaired reads of each mate, in that order. */
  datatype TrimmedReads = TrimmedReads(r1: string, r1Unpaired: string, r2: string, r2Unpaired: string)

  /** The rule's parameters; `None` is a parameter the rule leaves unset. The trimmer
      steps are mandatory. */
  datatype Params = Params(
    extra: Option<string>,
    compressionLevel: Option<string>,
    pigz: Option<string>,
    trimmer: seq<string>)

  /** How an input path appears on the command line under `mode`: changed exactly when
      the mode decompresses inputs. */
  function ReadRef(path: string, mode: string): (r: string)
    ensures r == path <==> mode !in InputModes
  {
    if mode in InputModes then "<(pigz --decompress --stdout " + path + ")" else path
  }

  /** How an output path appears on the command line under `mode` at `level`: changed
      exactly when the mode compresses outputs. */
  function WriteRef(path: string, mode: string, level: string): (r: string)
    ensures r == path <==> mode !in OutputModes
  {
    if mode in OutputModes then ">(pigz " + level + " > " + path + ")" else path
  }

  /** The fields of the command's format string, in their fixed order: tool, paired-end
      flag, extra arguments, the two inputs, the four outputs, the trimmer steps, the log
      redirection. A field may itself hold spaces. */
  function CommandFields(input: Reads, output: TrimmedReads, mode: string, level: string,
                         extra: string, trimmer: seq<string>, log: string): (t: seq<string>)
    ensures |t| == 11
  {
    ["trimmomatic", "PE", extra,
     ReadRef(input.r1, mode), ReadRef(input.r2, mode),
     WriteRef(output.r1, mode, level), WriteRef(output.r1Unpaired, mode, level),
     WriteRef(output.r2, mode, level), WriteRef(output.r2Unpaired, mode, level),
     JoinSpace(trimmer), log]
  }

  /** The command line the wrapper hands to the shell, or the configuration error that
      stops it. A mode outside PigzModes is rejected whatever the paths are. */
  function Assemble(input: Reads, output: TrimmedReads, mode: string, level: string,
                    extra: string, trimmer: seq<string>, log: string): (r: Result<string, ConfigError>)
    ensures r.Success? <==> mode in PigzModes
    ensures r.Failure? ==> r.error == UnknownPigzMode(mode)
  {
    if mode !in PigzModes then Failure(UnknownPigzMode(mode))
    else Success(JoinSpace(CommandFields(input, output, mode, level, extra, trimmer, log)))
  }

  /** The script itself: defaults for unset parameters, validation of the mode, then
      step-by-step rebinding of the six path variables and the final format string. */
  method RunWrapper(input: Reads, output: TrimmedReads, params: Params, log: string)
    returns (cmd: Result<string, ConfigError>)
    ensures cmd == Assemble(input, output, params.pigz.GetOr(DefaultPigz),
                            params.compressionLevel.GetOr(DefaultCompressionLevel),
                            params.extra.GetOr(""), params.trimmer, log)
    ensures params.pigz.None? ==> cmd == Failure(UnknownPigzMode(""))
  {
    var extra := params.extra.GetOr("");
    var compressionLevel := params.compressionLevel.GetOr(DefaultCompressionLevel);
    var trimmer := JoinSpace(params.trimmer);

    var pigz := params.pigz.GetOr(DefaultPigz);
    if pigz !in PigzModes {
      return Failure(UnknownPigzMode(pigz));
    }

    var inputR1, inputR2 := input.r1, input.r2;
    var outputR1, outputR1Unp := output.r1, output.r1Unpaired;
    var outputR2, outputR2Unp := output.r2, output.r2Unpaired;

    // pigz is an accepted compressor, so neither call can fail
    if pigz in InputModes {
      inputR1 := ComposeInputGz(inputR1, "pigz").value;
      inputR2 := ComposeInputGz(inputR2, "pigz").value;
    }
    if pigz in OutputModes {
      outputR1 := ComposeOutputGz(outputR1, "pigz", compressionLevel).value;
      outputR1Unp := ComposeOutputGz(outputR1Unp, "pigz", compressionLevel).value;
      outputR2 := ComposeOutputGz(outputR2, "pigz", compressionLevel).value;
      outputR2Unp := ComposeOutputGz(outputR2Unp, "pigz", compressionLevel).value;
    }

    ReadRefIsComposed(input.r1, pigz);
    ReadRefIsComposed(input.r2, pigz);
    WriteRefIsComposed(output.r1, pigz, compressionLevel);
    WriteRefIsComposed(output.r1Unpaired, pigz, compressionLevel);
    WriteRefIsComposed(output.r2, pigz, compressionLevel);
    WriteRefIsComposed(output.r2Unpaired, pigz, compressionLevel);
    cmd := Success("trimmomatic PE " + extra + " "
                   + inputR1 + " " + inputR2 + " "
                   + outputR1 + " " + outputR1Unp + " "
                   + outputR2 + " " + outputR2Unp + " "
                   + trimmer + " "
                   + log);
    CommandLayout(input, output, pigz, compressionLevel, extra, params.trimmer, log);
  }

  /** An input's field on the command line is what compose_input_gz builds with pigz
      when the mode decompresses inputs, and the bare path otherwise. */
  lemma ReadRefIsComposed(path: string, mode: string)
    ensures mode in InputModes ==> ComposeInputGz(path, "pigz") == Success(ReadRef(path, mode))
    ensures mode !in InputModes ==> ReadRef(path, mode) == path
  {
    assert "<(" + "pigz" + " --decompress --stdout " == "<(pigz --decompress --stdout ";
  }

  /** An output's field on the command line is what compose_output_gz builds with pigz at
      `level` when the mode compresses outputs, and the bare path otherwise. */
  lemma WriteRefIsComposed(path: string, mode: string, level: string)
    ensures mode in OutputModes ==> ComposeOutputGz(path, "pigz", level) == Success(WriteRef(path, mode, level))
    ensures mode !in OutputModes ==> WriteRef(path, mode, level) == path
  {
    assert ">(" + "pigz" + " " == ">(pigz ";
  }

  /** A wrapped input reads back as pigz decompressing that very path (ReadRef itself
      states that it wraps exactly under InputModes). */
  lemma ReadRefWrapsExactly(path: string, mode: string)
    ensures mode in InputModes ==> ParseInputFragment(ReadRef(path, mode)) == Some(("pigz", path))
  {
    if mode in InputModes {
      ReadRefIsComposed(path, mode);
      InputRoundTrip(path, "pigz");
    }
  }

  /** A wrapped output reads back as pigz compressing into that very path at `level`
      (WriteRef itself states that it wraps exactly under OutputModes). */
  lemma WriteRefWrapsExactly(path: string, mode: string, level: string)
    ensures mode in OutputModes ==> ParseOutputFragment(WriteRef(path, mode, level), level) == Some(("pigz", path))
  {
    if mode in OutputModes {
      WriteRefIsComposed(path, mode, level);
      OutputRoundTrip(path, "pigz", level);
    }
  }

  /** With mode "none" no path is wrapped: the six paths appear literally, in order. */
  lemma ModeNoneIsLiteral(input: Reads, output: TrimmedReads, level: string,
                          extra: string, trimmer: seq<string>, log: string)
    ensures Assemble(input, output, "none", level, extra, trimmer, log)
         == Success("trimmomatic PE " + extra + " " + input.r1 + " " + input.r2 + " "
                    + output.r1 + " " + output.r1Unpaired + " " + output.r2 + " " + output.r2Unpaired + " "
                    + JoinSpace(trimmer) + " " + log)
  {
    CommandLayout(input, output, "none", level, extra, trimmer, log);
  }

  /** With mode "both" both inputs are decompressed and all four outputs are compressed
      at `level`, each by its own pigz process substitution. */
  lemma ModeBothWrapsAll(input: Reads, output: TrimmedReads, level: string,
                         extra: string, trimmer: seq<string>, log: string)
    ensures Assemble(input, output, "both", level, extra, trimmer, log)
         == Success("trimmomatic PE " + extra + " "
                    + ("<(pigz --decompress --stdout " + input.r1 + ")") + " "
                    + ("<(pigz --decompress --stdout " + input.r2 + ")") + " "
                    + (">(pigz " + level + " > " + output.r1 + ")") + " "
                    + (">(pigz " + level + " > " + output.r1Unpaired + ")") + " "
                    + (">(pigz " + level + " > " + output.r2 + ")") + " "
                    + (">(pigz " + level + " > " + output.r2Unpaired + ")") + " "
                    + JoinSpace(trimmer) + " " + log)
  {
    CommandLayout(input, output, "both", level, extra, trimmer, log);
  }

  /** The trimmer steps keep their order: the tenth field of the command is their join,
      and when no step holds a space it splits back into exactly the steps. */
  lemma TrimmerStepsRecoverable(input: Reads, output: TrimmedReads, mode: string, level: string,
                                extra: string, trimmer: seq<string>, log: string)
    requires |trimmer| > 0
    requires forall i :: 0 <= i < |trimmer| ==> NoSpace(trimmer[i])
    ensures mode in PigzModes ==>
              Assemble(input, output, mode, level, extra, trimmer, log)
              == Success(JoinSpace(CommandFields(input, output, mode, level, extra, trimmer, log)))
    ensures CommandFields(input, output, mode, level, extra, trimmer, log)[9] == JoinSpace(trimmer)
    ensures SplitOnSpace(CommandFields(input, output, mode, level, extra, trimmer, log)[9]) == trimmer
  {
    SplitJoinRoundTrip(trimmer);
  }

  /** The command line is its fields joined by single spaces, spelled out. */
  lemma CommandLayout(input: Reads, output: TrimmedReads, mode: string, level: string,
                      extra: string, trimmer: seq<string>, log: string)
    ensures JoinSpace(CommandFields(input, output, mode, level, extra, trimmer, log))
         == "trimmomatic PE " + extra + " "
            + ReadRef(input.r1, mode) + " " + ReadRef(input.r2, mode) + " "
            + WriteRef(output.r1, mode, level) + " " + WriteRef(output.r1Unpaired, mode, level) + " "
            + WriteRef(output.r2, mode, level) + " " + WriteRef(output.r2Unpaired, mode, level) + " "
            + JoinSpace(trimmer) + " "
            + log
  {
    assert "trimmomatic" + " " + "PE" + " " == "trimmomatic PE ";
    JoinFields("trimmomatic", "PE", extra, ReadRef(input.r1, mode), ReadRef(input.r2, mode),
              WriteRef(output.r1, mode, level), WriteRef(output.r1Unpaired, mode, level),
              WriteRef(output.r2, mode, level), WriteRef(output.r2Unpaired, mode, level),
              JoinSpace(trimmer), log);
  }

  /** Joining the eleven fields of a command line, whatever they hold. */
  lemma JoinFields(tool: string, flag: string, extra: string, r1: string, r2: string,
                  o1: string, o1u: string, o2: string, o2u: string, trimmer: string, log: string)
    ensures JoinSpace([tool, flag, extra, r1, r2, o1, o1u, o2, o2u, trimmer, log])
         == tool + " " + flag + " " + extra + " " + r1 + " " + r2 + " " + o1 + " " + o1u + " "
            + o2 + " " + o2u + " " + trimmer + " " + log
  {
    var t := [tool, flag, extra, r1, r2, o1, o1u, o2, o2u, trimmer, log];
    assert t[..1] == [tool];
    JoinSpacePrefix(t, 1);
    JoinSpacePrefix(t, 2);
    JoinSpacePrefix(t, 3);
    JoinSpacePrefix(t, 4);
    JoinSpacePrefix(t, 5);
    JoinSpacePrefix(t, 6);
    JoinSpacePrefix(t, 7);
    JoinSpacePrefix(t, 8);
    JoinSpacePrefix(t, 9);
    JoinSpacePrefix(t, 10);
    assert t[..11] == t;
  }
}
