/** Compiling, then loading. */
module CompileRoundTrip {
  import opened Wrappers
  import opened Orders
  import opened Lexicon
  import opened PackFormat
  import opened CompiledPack
  import opened CompiledSections

  /** Bigram records have one context word, trigram records two. */
  ghost predicate Arity(rs: seq<NgramRecord>, k: nat) {
    forall i | 0 <= i < |rs| :: |rs[i].context| == k
  }

  lemma CompiledSectionsFit(c: Codec, es: seq<SourceEntry>, includeFrequencies: bool, bigrams: seq<NgramRecord>,
                            trigrams: seq<NgramRecord>)
    requires Compilable(c, es, includeFrequencies, bigrams, trigrams) && Arity(bigrams, 1) && Arity(trigrams, 2)
    ensures
      var p := PackOf(es, includeFrequencies, bigrams, trigrams);
      && SectionFits(p.bigrams, |es|, 1, MAX_BIGRAM_PREDICTIONS) && |p.bigrams| < 0x1_0000_0000
      && SectionFits(p.trigrams, |es|, 2, MAX_TRIGRAM_PREDICTIONS) && |p.trigrams| < 0x1_0000_0000
  {
    hide SectionCompiles;
    hide SectionOf;
    hide SectionFits;
    hide EntryFits;
    hide EncodePayload;
    var index := LexiconIndex(SourceForms(es));
    LexiconIndexInjective(SourceForms(es));
    SectionOfFits(index, bigrams, |es|, 1, MAX_BIGRAM_PREDICTIONS);
    SectionOfFits(index, trigrams, |es|, 2, MAX_TRIGRAM_PREDICTIONS);
  }

  /** Main theorem: whenever compilation succeeds, the loader accepts the bytes exactly when the
      text and the lists fit the store's 32-bit quantities, and then gives back every entry, in
      canonical form and in order, and exactly the groups of in-lexicon records. */
  lemma CompiledPackLoads(c: Codec, es: seq<SourceEntry>, includeFrequencies: bool, bigrams: seq<NgramRecord>,
                          trigrams: seq<NgramRecord>)
    requires c.Lawful() && Compilable(c, es, includeFrequencies, bigrams, trigrams)
    requires Arity(bigrams, 1) && Arity(trigrams, 2)
    ensures
      var p := PackOf(es, includeFrequencies, bigrams, trigrams);
      ParsePack(c, EncodePack(c, p))
      == if UsageFrom(c, NO_USAGE, p.entries).Fits() then Ok(p) else Err(InvalidPayload)
  {
    hide SectionCompiles;
    hide SectionOf;
    hide SectionFits;
    hide EntryFits;
    hide EncodePayload;
    hide ParsePack;
    hide ParsePayload;
    hide PackEntry;
    hide Usage.Add;
    hide Usage.Fits;
    var p := PackOf(es, includeFrequencies, bigrams, trigrams);
    CompiledSectionsFit(c, es, includeFrequencies, bigrams, trigrams);
    if UsageFrom(c, NO_USAGE, p.entries).Fits() {
      LoadOfEncode(c, p);
    } else {
      LoadIsPayload(c, |p.entries|, EncodePayload(c, p));
      OverflowingPayload(c, p);
    }
  }

  lemma OverflowingPayload(c: Codec, p: Pack)
    requires c.Lawful() && (forall i | 0 <= i < |p.entries| :: EntryFits(c, p.entries[i]))
    requires !UsageFrom(c, NO_USAGE, p.entries).Fits()
    ensures ParsePayload(c, EncodePayload(c, p), |p.entries|) == Err(InvalidPayload)
  {
    hide ParseEntries;
    hide EncodeEntries;
    hide ParseSection;
    hide EncodeSection;
    hide EntryFits;
    hide Usage.Add;
    assert NO_USAGE.Fits();
    ParseEntriesOverflow(c, p.entries, NO_USAGE, EncodeSection(p.bigrams) + EncodeSection(p.trigrams));
  }

  /** The produced pack, and whether there is one, do not depend on the order of the records. */
  lemma CompilationIgnoresRecordOrder(c: Codec, es: seq<SourceEntry>, includeFrequencies: bool,
                                      bigrams: seq<NgramRecord>, trigrams: seq<NgramRecord>,
                                      bigrams': seq<NgramRecord>, trigrams': seq<NgramRecord>)
    requires multiset(bigrams) == multiset(bigrams') && multiset(trigrams) == multiset(trigrams')
    requires Arity(bigrams, 1) && Arity(trigrams, 2) && Arity(bigrams', 1) && Arity(trigrams', 2)
    ensures Compilable(c, es, includeFrequencies, bigrams, trigrams)
            <==> Compilable(c, es, includeFrequencies, bigrams', trigrams')
    ensures Compilable(c, es, includeFrequencies, bigrams, trigrams) ==>
              PackOf(es, includeFrequencies, bigrams, trigrams) == PackOf(es, includeFrequencies, bigrams', trigrams')
  {
    hide Compilable;
    hide PackOf;
    if Compilable(c, es, includeFrequencies, bigrams, trigrams) {
      ReorderedCompiles(c, es, includeFrequencies, bigrams, trigrams, bigrams', trigrams');
    }
    if Compilable(c, es, includeFrequencies, bigrams', trigrams') {
      ReorderedCompiles(c, es, includeFrequencies, bigrams', trigrams', bigrams, trigrams);
    }
  }

  lemma ReorderedCompiles(c: Codec, es: seq<SourceEntry>, includeFrequencies: bool,
                          bigrams: seq<NgramRecord>, trigrams: seq<NgramRecord>,
                          bigrams': seq<NgramRecord>, trigrams': seq<NgramRecord>)
    requires Compilable(c, es, includeFrequencies, bigrams, trigrams)
    requires multiset(bigrams) == multiset(bigrams') && multiset(trigrams) == multiset(trigrams')
    requires Arity(bigrams, 1) && Arity(trigrams, 2)
    ensures Compilable(c, es, includeFrequencies, bigrams', trigrams')
    ensures PackOf(es, includeFrequencies, bigrams, trigrams) == PackOf(es, includeFrequencies, bigrams', trigrams')
  {
    hide SectionOf;
    hide EntryFits;
    hide EncodePayload;
    hide PackEntry;
    hide SectionKeys;
    hide Group;
    hide RecordValid;
    var index := LexiconIndex(SourceForms(es));
    LexiconIndexInjective(SourceForms(es));
    SectionIgnoresOrder(index, bigrams, bigrams', 1, MAX_BIGRAM_PREDICTIONS);
    SectionIgnoresOrder(index, trigrams, trigrams', 2, MAX_TRIGRAM_PREDICTIONS);
  }
}
