/** The configuration errors of the trimmomatic PE wrapper, shared by the fragment
    builders and the command assembly. Each error carries the rejected value. */
module Errors {

  datatype ConfigError =
    | UnknownCompressor(compressor: string)  // not one of Compose.Compressors
    | UnknownPigzMode(mode: string)          // not one of TrimmomaticPE.PigzModes
}
