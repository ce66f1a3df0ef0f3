/**
 The parameters of the text protocol that live outside the modelled files:
 the frame limit `TEXT_LIMIT_SIZE`, the token cap `TEXT_MAX_TOKS` (the
 operation name plus its arguments) and `code_str`, the name written on the
 wire for each code.
 */
module TextConfig {
  import opened Common

  /** `TEXT_MAX_TOKS` sizes the `toks` array, so it is at least 1. */
  type TokenCap = n: nat | 1 <= n witness 1

  datatype Config = Config(limit: nat, maxToks: TokenCap, codeName: Code -> Bytes)
}
