/** Strings that end with a NUL. */
module CStrings {
  /** The character at i: reading the end gives the NUL. */
  function At(s: string, i: nat): char {
    if i < |s| then s[i] else '\0'
  }
}
