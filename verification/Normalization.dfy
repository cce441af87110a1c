/** Diacritic stripping over an abstract normalisation. */
module Normalization {
  import opened Orders

  /** `normalize`: control-character removal, then NFC, then lower-casing, taken as a parameter. It
      need not be idempotent: lower-casing can leave text that NFC would still change. */
  type Normalizer = Str -> Str

  function StripChar(c: char): char {
    match c
    case 'î' => 'i'
    case 'û' => 'u'
    case 'ş' => 's'
    case 'ç' => 'c'
    case 'ê' => 'e'
    case _ => c
  }

  function StripChars(s: Str): (r: Str)
    ensures |r| == |s| && forall i | 0 <= i < |s| :: r[i] == StripChar(s[i])
  {
    if s == [] then [] else StripChars(s[..|s| - 1]) + [StripChar(s[|s| - 1])]
  }

  function StripDiacritics(norm: Normalizer, text: Str): Str {
    StripChars(norm(text))
  }

  lemma StripCharsAppend(s: Str, t: Str)
    ensures StripChars(s + t) == StripChars(s) + StripChars(t)
  {
  }
}
