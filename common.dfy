/** Small vocabulary shared by the GUI and console models: bytes, an optional
    value, and the suffix test that both front ends use to classify file names. */
module Common {

  /** One byte of a file, of the transcoder's output or of a pipe read. */
  newtype uint8 = x: int | 0 <= x < 0x100

  datatype Option<+T> = None | Some(value: T)

  /** `s` ends with `suffix`, character for character (case-sensitive), as
      QString::endsWith with the default case sensitivity and as a comparison
      of std::string tails. */
  predicate EndsWith(s: string, suffix: string)
  {
    |suffix| <= |s| && s[|s| - |suffix|..] == suffix
  }

  /** Appending a suffix makes the name end with it, whatever came before. */
  lemma EndsWithAppended(prefix: string, suffix: string)
    ensures EndsWith(prefix + suffix, suffix)
  {
    assert (prefix + suffix)[|prefix|..] == suffix;
  }
}
