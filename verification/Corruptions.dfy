/** Single-edit corruptions of known words, and why the pipeline always offers the word back. */
module Corruptions {
  import opened Wrappers
  import opened Orders
  import opened Normalization
  import opened EditDistance
  import opened EditScripts
  import opened SingleEdits
  import opened Lexicon
  import opened Ranking
  import opened Suggest
  import opened IndexExactness
  import opened CandidateMap

  const MIN_TARGET_CHARS := 4

  const KURMANCI_ALPHABET: Str := "abcçdeêfghiîjklmnopqrsştuûvwxyz"

  datatype Corruption =
    | DeleteOneLetter
    | DuplicateOneLetter
    | SubstituteOneLetter
    | TransposeTwoLetters
    | StripAllDiacritics

  /** The first letter of the alphabet other than `c`. */
  function Replacement(c: char): char {
    if c != KURMANCI_ALPHABET[0] then KURMANCI_ALPHABET[0] else KURMANCI_ALPHABET[1]
  }

  /** The edited word, before degenerate results are discarded; the position is the middle. */
  function Corrupted(norm: Normalizer, corruption: Corruption, word: Str): Option<Str>
    requires |word| >= MIN_TARGET_CHARS
  {
    var at := |word| / 2;
    match corruption
    case DeleteOneLetter => Some(word[..at] + word[at + 1..])
    case DuplicateOneLetter => Some(word[..at] + [word[at]] + word[at..])
    case SubstituteOneLetter => Some(word[at := Replacement(word[at])])
    case TransposeTwoLetters =>
      if at + 1 >= |word| || word[at] == word[at + 1] then None
      else Some(word[at := word[at + 1]][at + 1 := word[at]])
    case StripAllDiacritics => Some(StripDiacritics(norm, word))
  }

  function Apply(norm: Normalizer, corruption: Corruption, word: Str): Option<Str> {
    if |word| < MIN_TARGET_CHARS then None
    else
      var out := Corrupted(norm, corruption, word);
      if out.None? || out.value == word || |out.value| < 2 then None else out
  }

  predicate IsLetter(c: char) {
    c in KURMANCI_ALPHABET
  }

  predicate OverAlphabet(s: Str) {
    forall i | 0 <= i < |s| :: IsLetter(s[i])
  }

  /** Words over the alphabet are lower-case and composed: normalization keeps them. */
  ghost predicate KeepsAlphabet(norm: Normalizer) {
    forall s | OverAlphabet(s) :: norm(s) == s
  }

  lemma BaseLetters()
    ensures IsLetter('a') && IsLetter('b') && IsLetter('c') && IsLetter('e')
    ensures IsLetter('i') && IsLetter('s') && IsLetter('u')
  {
    var s := KURMANCI_ALPHABET;
    assert s[0] == 'a';
    assert s[1] == 'b';
    assert s[2] == 'c';
    assert s[5] == 'e';
    assert s[10] == 'i';
    assert s[21] == 's';
    assert s[24] == 'u';
  }

  lemma StrippedLetter(c: char)
    requires IsLetter(c)
    ensures IsLetter(StripChar(c))
  {
    BaseLetters();
    hide IsLetter;
    assert StripChar(c) == c || StripChar(c) == 'i' || StripChar(c) == 'u' || StripChar(c) == 's'
        || StripChar(c) == 'c' || StripChar(c) == 'e';
  }

  lemma ReplacementIsLetter(c: char)
    ensures IsLetter(Replacement(c))
  {
  }

  lemma CorruptedOverAlphabet(norm: Normalizer, corruption: Corruption, word: Str)
    requires KeepsAlphabet(norm) && OverAlphabet(word) && Apply(norm, corruption, word).Some?
    ensures OverAlphabet(Apply(norm, corruption, word).value)
  {
    hide IsLetter;
    hide Replacement;
    var out := Apply(norm, corruption, word).value;
    forall i | 0 <= i < |out| ensures IsLetter(out[i]) {
      var at := |word| / 2;
      ReplacementIsLetter(word[at]);
      if corruption.StripAllDiacritics? {
        StrippedLetter(word[i]);
      }
    }
  }

  /** What each corruption is, letter by letter; the middle is behind the first half of the letters. */
  lemma CorruptedReads(norm: Normalizer, corruption: Corruption, word: Str)
    requires |word| >= MIN_TARGET_CHARS
    ensures
      var n, at := |word|, |word| / 2;
      var out := Corrupted(norm, corruption, word);
      match corruption
      case DeleteOneLetter =>
        && out.Some? && |out.value| == n - 1
        && forall i | 0 <= i < n - 1 :: out.value[i] == word[if i < at then i else i + 1]
      case DuplicateOneLetter =>
        && out.Some? && |out.value| == n + 1
        && forall i | 0 <= i < n + 1 :: out.value[i] == word[if i <= at then i else i - 1]
      case SubstituteOneLetter =>
        && out.Some? && |out.value| == n && out.value[at] == (if word[at] == 'a' then 'b' else 'a')
        && forall i | 0 <= i < n && i != at :: out.value[i] == word[i]
      case TransposeTwoLetters =>
        && (out.None? <==> word[at] == word[at + 1])
        && (out.Some? ==>
              && |out.value| == n && out.value[at] == word[at + 1] && out.value[at + 1] == word[at]
              && forall i | 0 <= i < n && i != at && i != at + 1 :: out.value[i] == word[i])
      case StripAllDiacritics =>
        && out.Some? && |out.value| == |norm(word)|
        && forall i | 0 <= i < |norm(word)| :: out.value[i] == StripChar(norm(word)[i])
  {
  }

  /** The exact distance of each corruption from the word, in quarters: the substitute is a
      neighbour of s, q and z on the keyboard. */
  lemma CorruptionCosts(norm: Normalizer, corruption: Corruption, word: Str)
    requires |word| >= MIN_TARGET_CHARS && Corrupted(norm, corruption, word).Some?
    ensures
      var at, d := |word| / 2, Distance(Weighted, Corrupted(norm, corruption, word).value, word);
      match corruption
      case DeleteOneLetter => d == 4
      case DuplicateOneLetter => d == 4
      case SubstituteOneLetter => d == if word[at] in ['s', 'q', 'z'] then 3 else 4
      case TransposeTwoLetters => d == if Paired(DIACRITIC_PAIRS, word[at], word[at + 1]) then 2 else 3
      case StripAllDiacritics => norm(word) == word ==> d == Marks(word)
  {
    hide Distance;
    hide Replacement;
    hide Paired;
    var at := |word| / 2;
    match corruption
    case DeleteOneLetter =>
      MiddleSplits(word, at);
      OneLetterAdded(word[..at], word[at], word[at + 1..]);
    case DuplicateOneLetter =>
      OneLetterAdded(word[..at], word[at], word[at..]);
      assert word == word[..at] + word[at..];
    case SubstituteOneLetter =>
      MiddleSplits(word, at);
      ReplacementCosts(word[at]);
      ChangeCosts(Weighted, word[..at], Replacement(word[at]), word[at], word[at + 1..]);
    case TransposeTwoLetters =>
      MiddleSwaps(word, at);
      TwoLettersSwapped(word[..at], word[at + 1], word[at], word[at + 2..]);
      PairedSymmetric(DIACRITIC_PAIRS, word[at], word[at + 1]);
    case StripAllDiacritics =>
      StrippingCosts(word);
  }

  /** A word of four letters or more carries every corruption except the swap of equal letters and the
      loss of diacritics that it does not have; a shorter word carries none. */
  lemma CorruptionApplies(norm: Normalizer, corruption: Corruption, word: Str)
    requires norm(word) == word
    ensures Apply(norm, corruption, word).None?
            <==> |word| < 4
                 || (corruption.TransposeTwoLetters? && word[|word| / 2] == word[|word| / 2 + 1])
                 || (corruption.StripAllDiacritics? && Marks(word) == 0)
  {
    hide Distance;
    hide Paired;
    hide Marks;
    hide StripChar;
    hide Corrupted;
    if |word| >= MIN_TARGET_CHARS {
      CorruptedReads(norm, corruption, word);
      var out := Corrupted(norm, corruption, word);
      if out.Some? {
        CorruptionCosts(norm, corruption, word);
        DistanceLaws(Weighted, out.value, word);
      }
    }
  }

  lemma ReplacementCosts(c: char)
    ensures Substitution(Weighted, Replacement(c), c) == if c in ['s', 'q', 'z'] then 3 else 4
  {
  }

  lemma PairedSymmetric(pairs: set<(char, char)>, a: char, b: char)
    ensures Paired(pairs, a, b) == Paired(pairs, b, a)
  {
  }

  /** One edit in the middle is within reach of the scorer. */
  lemma CorruptedIsNear(norm: Normalizer, corruption: Corruption, word: Str)
    requires |word| >= MIN_TARGET_CHARS && Corrupted(norm, corruption, word).Some?
    requires !corruption.StripAllDiacritics?
    ensures Distance(Weighted, Corrupted(norm, corruption, word).value, word) <= 4
  {
    hide Distance;
    hide Corrupted;
    hide Paired;
    CorruptionCosts(norm, corruption, word);
  }

  lemma MiddleSplits(word: Str, at: nat)
    requires at < |word|
    ensures word == word[..at] + [word[at]] + word[at + 1..]
    ensures forall y :: word[at := y] == word[..at] + [y] + word[at + 1..]
  {
  }

  lemma MiddleSwaps(word: Str, at: nat)
    requires at + 1 < |word|
    ensures word == word[..at] + [word[at], word[at + 1]] + word[at + 2..]
    ensures word[at := word[at + 1]][at + 1 := word[at]] == word[..at] + [word[at + 1], word[at]] + word[at + 2..]
  {
  }

  /** Stripping is undone by diacritic restoration: stripping twice is stripping once. */
  lemma StripTwice(s: Str)
    ensures StripChars(StripChars(s)) == StripChars(s)
  {
  }

  lemma CorruptedIsRelevant(norm: Normalizer, corruption: Corruption, word: Str)
    requires KeepsAlphabet(norm) && OverAlphabet(word) && Apply(norm, corruption, word).Some?
    ensures
      var query := Apply(norm, corruption, word).value;
      norm(query) == query && query != [] && Relevant(norm, query, word) && Near(norm, query, word)
  {
    hide Distance;
    hide OverAlphabet;
    hide StripChars;
    var query := Apply(norm, corruption, word).value;
    CorruptedOverAlphabet(norm, corruption, word);
    if corruption.StripAllDiacritics? {
      StripTwice(word);
    } else {
      CorruptedIsNear(norm, corruption, word);
      DistanceLaws(Weighted, word, query);
    }
    WithinTwoIsCandidate(query, word);
    DistanceLaws(Unit, StripChars(query), StripChars(word));
  }

  /** Whatever corruption is applied to a known word over the alphabet, in whatever lexicon, every
      unlimited list of either pipeline for the corrupted form offers an entry with the word's
      form. */
  lemma CorruptionIsRecovered(entries: seq<LexiconEntry>, norm: Normalizer, config: RankingConfig,
                              corruption: Corruption, i: nat, limit: nat, r: seq<RankedCandidate>)
    requires KeepsAlphabet(norm) && i < |entries| && OverAlphabet(entries[i].normalized)
    requires Apply(norm, corruption, entries[i].normalized).Some?
    ensures
      var query := Apply(norm, corruption, entries[i].normalized).value;
      && (IsUnlimitedFullScan(entries, norm, query, limit, config, r) ==> Offers(entries, r, entries[i].normalized))
      && (IsUnlimitedIndexed(entries, norm, query, limit, config, r) ==> Offers(entries, r, entries[i].normalized))
  {
    hide Distance;
    hide IsUnlimitedFullScan;
    hide IsUnlimitedIndexed;
    hide Offers;
    hide Relevant;
    hide Near;
    hide Apply;
    hide OverAlphabet;
    hide KeepsAlphabet;
    var w := entries[i].normalized;
    var query := Apply(norm, corruption, w).value;
    CorruptedIsRelevant(norm, corruption, w);
    assert Forms(entries)[i] == w;
    RelevantFormIsOffered(entries, norm, query, limit, config, r, w);
  }

  /** With unique forms, it is the word's own entry. */
  lemma OwnEntryIsRecovered(entries: seq<LexiconEntry>, norm: Normalizer, config: RankingConfig,
                            corruption: Corruption, i: nat, limit: nat, r: seq<RankedCandidate>)
    requires KeepsAlphabet(norm) && i < |entries| && OverAlphabet(entries[i].normalized) && UniqueForms(entries)
    requires Apply(norm, corruption, entries[i].normalized).Some?
    requires
      var query := Apply(norm, corruption, entries[i].normalized).value;
      || IsUnlimitedFullScan(entries, norm, query, limit, config, r)
      || IsUnlimitedIndexed(entries, norm, query, limit, config, r)
    ensures exists c :: c in r && c.word == entries[i].word
  {
    hide IsUnlimitedFullScan;
    hide IsUnlimitedIndexed;
    hide Apply;
    hide OverAlphabet;
    hide KeepsAlphabet;
    CorruptionIsRecovered(entries, norm, config, corruption, i, limit, r);
  }
}
