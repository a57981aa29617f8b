# trimmomatic PE wrapper: command composition

A Dafny model of the Snakemake wrapper `bio/trimmomatic/pe/wrapper.py`. The wrapper
runs Trimmomatic in paired-end mode. It can put pigz process substitutions on the two
read inputs (`<(pigz --decompress --stdout F)`) and the four trimmed outputs
(`>(pigz LEVEL > F)`), so that (de)compression runs beside trimming. The model covers
all of the wrapper's decision logic:

- `compose_input_gz` and `compose_output_gz`, the two fragment builders. Each accepts
  a compressor from the closed set {none, gzip, pigz} and rejects anything else.
- The module-level script. It reads the rule's parameters with their defaults, checks
  the `pigz` mode against {none, input, output, both}, rebinds the six path variables
  the mode selects, and builds the `trimmomatic PE …` command line.

Files:

- `errors.dfy`: `ConfigError`, the wrapper's two configuration errors. Each carries the
  rejected string.
- `wrappers.dfy`: `Option`, where `GetOr` plays Python's `params.get(key, default)`,
  and `Result`, where `Failure` stands for a raised `RuntimeError`.
- `text.dfy`: `JoinSpace` (Python's `" ".join`), its inverse `SplitOnSpace` on
  space-free tokens, and `StripAffixes`.
- `compose.dfy`: `ComposeInputGz` and `ComposeOutputGz`, each with the default
  arguments of the Python functions. Also `ParseInputFragment` and
  `ParseOutputFragment`, which read a fragment back. They show that wrapping loses
  neither the path nor the compressor.
- `trimmomatic_pe.dfy`: the rule's inputs, outputs and parameters as datatypes. It
  holds `Assemble`, a declarative description of the command line: the eleven fields
  of the source's format string, joined by spaces. It also holds `RunWrapper`, a method that follows the script
  step by step and is proved to produce what `Assemble` describes.

An error is a `ConfigError` value that carries the rejected string:
`UnknownCompressor(c)` or `UnknownPigzMode(m)`.

The documentation examples in the source differ from its code in a few places. The
model follows the code:

- The error message in the examples ("decompressor must be …, not bzip2" for input
  `xz`, and "compressor must be …") is not the message the code builds.
- One example output has a stray quote.

The model has no message text at all (see Left out). A rule that does not set `pigz`
gets the default `""`. That value is not an accepted mode, so such a rule is rejected.
`RunWrapper` states this.

## Model

| member | source | states |
|---|---|---|
| `Compose.ComposeInputGz` | bio/trimmomatic/pe/wrapper.py:19-49 | fails exactly when the compressor is not none, gzip or pigz, and the error carries that compressor; for none the result is the path unchanged |
| `Compose.ComposeOutputGz` | bio/trimmomatic/pe/wrapper.py:52-84 | fails exactly when the compressor is not none, gzip or pigz, and the error carries that compressor; for none the result is the path unchanged whatever the level |
| `Compose.InputFragmentShape` | bio/trimmomatic/pe/wrapper.py:44-48 | for gzip and pigz the result is `<(C --decompress --stdout F)` |
| `Compose.OutputFragmentShape` | bio/trimmomatic/pe/wrapper.py:78-83 | for gzip and pigz the result is `>(C LEVEL > F)` |
| `Compose.ParseInputFragment` | bio/trimmomatic/pe/wrapper.py:45-48 | a parse that succeeds returns a wrapping compressor and a path that rebuild the text exactly |
| `Compose.ParseOutputFragment` | bio/trimmomatic/pe/wrapper.py:79-83 | a parse at a given level that succeeds returns a wrapping compressor and a path that rebuild the text exactly |
| `Compose.InputRoundTrip` | bio/trimmomatic/pe/wrapper.py:44-48 | a gzip or pigz read fragment parses back into the same compressor and path |
| `Compose.OutputRoundTrip` | bio/trimmomatic/pe/wrapper.py:78-83 | a gzip or pigz write fragment at a level parses back into the same compressor and path |
| `Compose.InputFragmentInjective` | bio/trimmomatic/pe/wrapper.py:44-48 | two equal read fragments name the same compressor and the same path |
| `Compose.OutputFragmentInjective` | bio/trimmomatic/pe/wrapper.py:78-83 | two equal write fragments at one level name the same compressor and the same path |
| `Compose.InputDocumentedExamples` | bio/trimmomatic/pe/wrapper.py:27-34 | "test" with none gives "test"; with pigz it gives `<(pigz --decompress --stdout test)`; xz is rejected with the error carrying "xz" |
| `Compose.InputGzipExample` | bio/trimmomatic/pe/wrapper.py:31-32 | "test" with gzip gives `<(gzip --decompress --stdout test)` |
| `Compose.OutputDocumentedExamples` | bio/trimmomatic/pe/wrapper.py:61-68 | none gives the path; pigz at the default level gives `>(pigz -5 > test)`; gzip at -9 gives `>(gzip -9 > test)`; bzip2 is rejected with the error carrying "bzip2" |
| `Wrappers.Option.GetOr` | bio/trimmomatic/pe/wrapper.py:87-92 | a parameter that is set is used as given; one that is absent takes its default |
| `Text.JoinSpace` | bio/trimmomatic/pe/wrapper.py:90 | the parts in order with one space between neighbours: "" for no parts; otherwise it starts with the first part and has their total length plus one per gap (its laws are JoinSpaceSingleton, JoinSpaceAppend and SplitJoinRoundTrip) |
| `Text.JoinSpaceSingleton` | bio/trimmomatic/pe/wrapper.py:90 | one trimmer step joins to itself |
| `Text.JoinSpaceAppend` | bio/trimmomatic/pe/wrapper.py:90 | joining `a + b` (both non-empty) is `Join(a) + " " + Join(b)` |
| `Text.SplitJoinRoundTrip` | bio/trimmomatic/pe/wrapper.py:90 | splitting the join of a non-empty list of space-free steps at its spaces gives back the same steps in the same order |
| `TrimmomaticPE.CommandFields` | bio/trimmomatic/pe/wrapper.py:119-126 | the command's format string has exactly eleven fields |
| `TrimmomaticPE.Assemble` | bio/trimmomatic/pe/wrapper.py:92-96 | succeeds exactly when the mode is none, input, output or both; otherwise fails with the mode in the error, whatever the paths |
| `TrimmomaticPE.RunWrapper` | bio/trimmomatic/pe/wrapper.py:87-126 | the script's result equals `Assemble`, with defaults "" for extra, "-5" for the level and "" for pigz; an unset pigz is rejected with the error carrying "" |
| `TrimmomaticPE.ReadRef` | bio/trimmomatic/pe/wrapper.py:108-110 | an input's field differs from its path if and only if the mode is input or both |
| `TrimmomaticPE.WriteRef` | bio/trimmomatic/pe/wrapper.py:112-116 | an output's field differs from its path if and only if the mode is output or both |
| `TrimmomaticPE.ReadRefIsComposed` | bio/trimmomatic/pe/wrapper.py:108-110 | under input or both, an input's field is what compose_input_gz builds with pigz; otherwise it is the bare path |
| `TrimmomaticPE.WriteRefIsComposed` | bio/trimmomatic/pe/wrapper.py:112-116 | under output or both, an output's field is what compose_output_gz builds with pigz at the level; otherwise it is the bare path |
| `TrimmomaticPE.ReadRefWrapsExactly` | bio/trimmomatic/pe/wrapper.py:108-110 | under input or both, an input's field parses back as pigz decompressing that same path |
| `TrimmomaticPE.WriteRefWrapsExactly` | bio/trimmomatic/pe/wrapper.py:112-116 | under output or both, an output's field parses back as pigz compressing at the level into that same path |
| `TrimmomaticPE.CommandLayout` | bio/trimmomatic/pe/wrapper.py:119-126 | the command is `trimmomatic PE EXTRA R1 R2 O1 O1U O2 O2U TRIMMER LOG`, one space between fields, in that order |
| `TrimmomaticPE.JoinFields` | bio/trimmomatic/pe/wrapper.py:119-126 | joining eleven fields with spaces is their left-to-right concatenation with one space between neighbours |
| `TrimmomaticPE.ModeNoneIsLiteral` | bio/trimmomatic/pe/wrapper.py:107-126 | with mode none all six paths appear literally, in the fixed order |
| `TrimmomaticPE.ModeBothWrapsAll` | bio/trimmomatic/pe/wrapper.py:107-126 | with mode both, both inputs are pigz-decompressed and all four outputs are pigz-compressed at the level, in the fixed order |
| `TrimmomaticPE.TrimmerStepsRecoverable` | bio/trimmomatic/pe/wrapper.py:90 | for an accepted mode the command is the join of its fields; the tenth field is the join of the trimmer steps, and it splits back into exactly those steps, in order, when the list is non-empty and no step holds a space |

## Left out

- Running the command (`shell(...)`, wrapper.py:16 and 119) is left out. It spawns processes; the model stops at the command string.
- What the shell and the OS do with process substitution, and pigz running beside trimmomatic, are left out. That is runtime behaviour outside this code.
- The Snakemake object (`snakemake.params`, `snakemake.input`, `snakemake.output`) is replaced by explicit parameters. `Params.trimmer` is a required field, as the attribute access at line 90 requires. It is a list of strings only. The source would also take a bare string there, and `" ".join` would then put a space between its characters; the model does not cover that.
- `snakemake.log_fmt_shell` (line 88) is a call into the framework. The log redirection is an opaque input string.
- The wording of error messages is left out. An error is a tagged value that carries the rejected string.
- Thread and job counts are left out. The source has only TODOs for them (lines 24-25 and 58-59) and no parameter.
- `ParseOutputFragment` needs the level as an input. A level is free text, so it cannot always be told apart from the path inside `>(C LEVEL > F)`.
- `TrimmerStepsRecoverable` covers only non-empty lists of space-free steps. An empty list joins to "", which splits back to [""]. A step that holds a space cannot be split back apart.
