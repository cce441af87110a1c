/** Compiling, loading, predicting: which records a query is answered with. */
module CompiledPredictions {
  import opened Wrappers
  import opened Orders
  import opened Normalization
  import opened QueryIndexes
  import opened Lexicon
  import opened Ranking
  import opened Suggest
  import opened PackFormat
  import opened PackLoader
  import opened NextWord
  import opened CompiledPack
  import opened CompiledSections
  import opened CompileRoundTrip

  // What a query is to be answered with, in terms of the records

  /** The form belongs to exactly one entry. The compiler resolves a form to its last entry, the
      engine to its first. */
  ghost predicate Once(forms: seq<Str>, w: Str) {
    w in forms && forall i, j | 0 <= i < |forms| && 0 <= j < |forms| && forms[i] == w && forms[j] == w :: i == j
  }

  /** The engine can follow the context. */
  ghost predicate Answers(forms: seq<Str>, context: seq<Str>) {
    forall i | 0 <= i < |context| :: context[i] != [] && Once(forms, context[i])
  }

  /** The records of the context whose next word is in the lexicon. */
  function Matching(forms: seq<Str>, rs: seq<NgramRecord>, context: seq<Str>): seq<NgramRecord> {
    if rs == [] then []
    else
      var r := Last(rs);
      Matching(forms, Init(rs), context) + if r.context == context && r.next in forms then [r] else []
  }

  /** Probability descending, count descending, word ascending. */
  ghost function Expected(forms: seq<Str>, rs: seq<NgramRecord>, context: seq<Str>): seq<NgramRecord> {
    if Answers(forms, context) then SortBy(RecordLeq, Matching(forms, rs, context)) else []
  }

  lemma {:induction false} MatchingMembers(forms: seq<Str>, rs: seq<NgramRecord>, context: seq<Str>)
    ensures forall r :: r in Matching(forms, rs, context) <==> r in rs && r.context == context && r.next in forms
  {
    if rs != [] {
      MatchingMembers(forms, Init(rs), context);
      assert rs == Init(rs) + [Last(rs)];
    }
  }

  lemma ExpectedMembers(forms: seq<Str>, rs: seq<NgramRecord>, context: seq<Str>)
    ensures forall r :: r in Expected(forms, rs, context) <==>
                          Answers(forms, context) && r in rs && r.context == context && r.next in forms
    ensures Sorted(RecordLeq, Expected(forms, rs, context))
  {
    RecordLeqIsTotal();
    SortBySorts(RecordLeq, Matching(forms, rs, context));
    MatchingMembers(forms, rs, context);
  }

  lemma {:induction false} MatchingDistinct(forms: seq<Str>, rs: seq<NgramRecord>, context: seq<Str>)
    requires NoDuplicates(rs)
    ensures Distinct(Matching(forms, rs, context))
  {
    if rs != [] {
      MatchingDistinct(forms, Init(rs), context);
      MatchingMembers(forms, Init(rs), context);
      assert Last(rs) !in Init(rs);
    }
  }

  /** The expected records, greater probabilities first, then greater counts, then by word. */
  lemma ExpectedDescends(forms: seq<Str>, rs: seq<NgramRecord>, context: seq<Str>)
    ensures
      var g := Expected(forms, rs, context);
      forall i, j | 0 <= i < j < |g| ::
        Outranks(g[i], g[j])
        || (g[i].probability == g[j].probability && g[i].count == g[j].count && g[i].next == g[j].next)
    ensures
      var g := Expected(forms, rs, context);
      NoDuplicates(rs) ==> forall i, j | 0 <= i < j < |g| :: Outranks(g[i], g[j])
  {
    ExpectedMembers(forms, rs, context);
    var g := Expected(forms, rs, context);
    if NoDuplicates(rs) {
      ExpectedDistinct(forms, rs, context);
    }
    hide Expected;
    hide RecordLeq;
    hide Outranks;
    hide NoDuplicates;
    forall i, j | 0 <= i < j < |g|
      ensures Outranks(g[i], g[j])
              || (g[i].probability == g[j].probability && g[i].count == g[j].count && g[i].next == g[j].next)
      ensures NoDuplicates(rs) ==> Outranks(g[i], g[j])
    {
      assert RecordLeq(g[i], g[j]) && g[i] in g && g[j] in g;
      RecordOrderReads(g[i], g[j]);
      if NoDuplicates(rs) {
        SameNextIsSame(rs, g[i], g[j]);
      }
    }
  }

  lemma ExpectedDistinct(forms: seq<Str>, rs: seq<NgramRecord>, context: seq<Str>)
    requires NoDuplicates(rs)
    ensures Distinct(Expected(forms, rs, context))
  {
    MatchingDistinct(forms, rs, context);
    RecordLeqIsTotal();
    SortBySorts(RecordLeq, Matching(forms, rs, context));
    hide Matching;
    hide SortBy;
    DistinctPermutation(Matching(forms, rs, context), SortBy(RecordLeq, Matching(forms, rs, context)));
  }

  lemma SameNextIsSame(rs: seq<NgramRecord>, a: NgramRecord, b: NgramRecord)
    requires NoDuplicates(rs) && a in rs && b in rs && a.context == b.context
    ensures a.next == b.next ==> a == b
  {
    var i :| 0 <= i < |rs| && rs[i] == a;
    var j :| 0 <= j < |rs| && rs[j] == b;
  }

  lemma ExpectedResolves(forms: seq<Str>, rs: seq<NgramRecord>, context: seq<Str>)
    ensures
      var g := Expected(forms, rs, context);
      forall i | 0 <= i < |g| :: g[i].next in forms
  {
    ExpectedMembers(forms, rs, context);
    hide Expected;
    var g := Expected(forms, rs, context);
    forall i | 0 <= i < |g| ensures g[i].next in forms {
      assert g[i] in g;
    }
  }

  /** A record as it is shown: the display word of its next word's entry. */
  ghost function Displayed(entries: seq<LexiconEntry>, rs: seq<NgramRecord>): (r: seq<NextWordPrediction>)
    requires forall i | 0 <= i < |rs| :: rs[i].next in Forms(entries)
    ensures |r| == |rs|
    ensures forall i | 0 <= i < |rs| :: r[i] == ShownRecord(entries, rs[i])
  {
    seq(|rs|, i requires 0 <= i < |rs| => ShownRecord(entries, rs[i]))
  }

  ghost function ShownRecord(entries: seq<LexiconEntry>, r: NgramRecord): NextWordPrediction
    requires r.next in Forms(entries)
  {
    LexiconIndexBelow(Forms(entries), r.next);
    NextWordPrediction(entries[LexiconIndex(Forms(entries))[r.next]].word, r.count, r.probability)
  }

  /** The first `limit` records of the context, as shown. */
  ghost function Answer(entries: seq<LexiconEntry>, rs: seq<NgramRecord>, context: seq<Str>, limit: nat)
    : seq<NextWordPrediction>
  {
    ExpectedResolves(Forms(entries), rs, context);
    Displayed(entries, Take(Expected(Forms(entries), rs, context), limit))
  }

  /** Predictions as a caller reads them: greater probabilities first, then greater counts. */
  ghost predicate Descending(ps: seq<NextWordPrediction>) {
    forall i, j | 0 <= i < j < |ps| ::
      ps[i].probability > ps[j].probability
      || (ps[i].probability == ps[j].probability && ps[i].count >= ps[j].count)
  }

  lemma AnswerDescends(entries: seq<LexiconEntry>, rs: seq<NgramRecord>, context: seq<Str>, limit: nat)
    ensures Descending(Answer(entries, rs, context, limit))
  {
    hide Expected;
    hide StrLess;
    ExpectedDescends(Forms(entries), rs, context);
    ExpectedResolves(Forms(entries), rs, context);
  }

  // Looking up a compiled section

  lemma {:induction false} IndexOfDistinct(cs: seq<Context>, key: seq<nat>)
    requires forall i, j | 0 <= i < j < |cs| :: cs[i].key != cs[j].key
    ensures key in IndexOf(cs) <==> exists i :: 0 <= i < |cs| && cs[i].key == key
    ensures forall i | 0 <= i < |cs| && cs[i].key == key :: IndexOf(cs)[key] == cs[i].predictions
  {
    if cs != [] {
      IndexOfDistinct(cs[..|cs| - 1], key);
    }
  }

  /** The index of a compiled section: every key of an in-lexicon record, with its sorted group. */
  lemma IndexOfSection(index: map<Str, nat>, rs: seq<NgramRecord>, k: nat, key: seq<nat>)
    requires KeysBelow(index, 0x1_0000_0000) && Arity(rs, k)
    ensures
      var m := IndexOf(SectionOf(index, rs));
      && (key in m <==> exists i :: 0 <= i < |rs| && HasKey(index, rs[i], key))
      && (key in m ==> m[key] == ContextOf(index, rs, key).predictions)
  {
    hide HasKey;
    hide SortedGroup;
    SectionKeysAscend(index, rs, k);
    var keys, cs := SectionKeys(index, rs), SectionOf(index, rs);
    hide SectionKeys;
    hide SectionOf;
    forall i | 0 <= i < |cs| ensures cs[i].key == keys[i] {
    }
    IndexOfDistinct(cs, key);
    if key in keys {
      var i :| 0 <= i < |keys| && keys[i] == key;
      assert cs[i].key == key;
    }
  }

  /** The key the engine looks a context up with. */
  ghost predicate LookupKey(entries: seq<LexiconEntry>, context: seq<Str>, key: seq<nat>) {
    |key| == |context| && forall i | 0 <= i < |key| :: ContextIndex(entries, context[i]) == Some(key[i])
  }

  /** First and last entry of a form agree exactly when there is only one. */
  lemma FirstIsLast(entries: seq<LexiconEntry>, w: Str, i: nat)
    requires ContextIndex(entries, w) == Some(i)
    ensures w in LexiconIndex(Forms(entries))
    ensures LexiconIndex(Forms(entries))[w] == i <==> Once(Forms(entries), w)
    ensures forall v | v in LexiconIndex(Forms(entries)) && LexiconIndex(Forms(entries))[v] == i :: v == w
  {
    var forms := Forms(entries);
    PositionIsFirst(forms, w);
    LexiconIndexIsLast(forms, w);
    forall v | v in LexiconIndex(forms) && LexiconIndex(forms)[v] == i ensures v == w {
      LexiconIndexIsLast(forms, v);
    }
  }

  /** A key looked up by the engine is the key of the context's own records, or of none. */
  lemma KeyMeansContext(entries: seq<LexiconEntry>, context: seq<Str>, key: seq<nat>, r: NgramRecord)
    requires LookupKey(entries, context, key)
    ensures HasKey(LexiconIndex(Forms(entries)), r, key)
            <==> Answers(Forms(entries), context) && r.context == context && r.next in Forms(entries)
  {
    hide LexiconIndex;
    hide Once;
    hide ContextIndex;
    var forms, index := Forms(entries), LexiconIndex(Forms(entries));
    LexiconIndexIsLast(forms, r.next);
    forall i | 0 <= i < |key|
      ensures context[i] in index && context[i] != [] && (index[context[i]] == key[i] <==> Once(forms, context[i]))
      ensures forall v | v in index && index[v] == key[i] :: v == context[i]
    {
      FirstIsLast(entries, context[i], key[i]);
      NoEmptyContext(entries, context[i]);
    }
    if HasKey(index, r, key) {
      forall i | 0 <= i < |key| ensures r.context[i] == context[i] && Once(forms, context[i]) {
        assert KeyOf(index, r.context)[i] == key[i];
      }
      assert r.context == context;
    }
    if Answers(forms, context) && r.context == context && r.next in forms {
      assert KeyOf(index, context) == key;
    }
  }

  lemma NoEmptyContext(entries: seq<LexiconEntry>, w: Str)
    requires ContextIndex(entries, w).Some?
    ensures w != []
  {
  }

  lemma {:induction false} GroupIsMatching(entries: seq<LexiconEntry>, rs: seq<NgramRecord>, context: seq<Str>,
                                           key: seq<nat>)
    requires LookupKey(entries, context, key)
    ensures Group(LexiconIndex(Forms(entries)), rs, key)
            == if Answers(Forms(entries), context) then Matching(Forms(entries), rs, context) else []
  {
    hide HasKey;
    hide Answers;
    hide LookupKey;
    if rs != [] {
      GroupIsMatching(entries, Init(rs), context, key);
      KeyMeansContext(entries, context, key, Last(rs));
    }
  }

  /** A lookup in a compiled section finds the expected records, or there are none. */
  lemma LookupIsExpected(entries: seq<LexiconEntry>, rs: seq<NgramRecord>, context: seq<Str>, key: seq<nat>)
    requires |entries| <= U32_MAX && Arity(rs, |context|) && LookupKey(entries, context, key)
    ensures
      var index, expected := LexiconIndex(Forms(entries)), Expected(Forms(entries), rs, context);
      var m := IndexOf(SectionOf(index, rs));
      && (key in m <==> expected != [])
      && (forall i | 0 <= i < |expected| :: expected[i].next in index)
      && (key in m ==> m[key] == PredictionsOf(index, expected))
  {
    hide HasKey;
    hide Answers;
    hide LookupKey;
    hide Matching;
    hide LexiconIndex;
    hide SectionOf;
    var forms, index := Forms(entries), LexiconIndex(Forms(entries));
    LexiconIndexInjective(forms);
    IndexOfSection(index, rs, |context|, key);
    GroupIsMatching(entries, rs, context, key);
    KeyHasGroup(index, rs, key);
    SortedGroupResolves(index, rs, key);
    hide Group;
    assert SortedGroup(index, rs, key) == Expected(forms, rs, context);
  }

  lemma KeyHasGroup(index: map<Str, nat>, rs: seq<NgramRecord>, key: seq<nat>)
    ensures (exists i :: 0 <= i < |rs| && HasKey(index, rs[i], key)) <==> SortedGroup(index, rs, key) != []
  {
    SortedGroupMembers(index, rs, key);
    hide HasKey;
    hide SortedGroup;
    var g := SortedGroup(index, rs, key);
    if i :| 0 <= i < |rs| && HasKey(index, rs[i], key) {
      assert rs[i] in g;
    }
    if g != [] {
      assert g[0] in g;
      var i :| 0 <= i < |rs| && rs[i] == g[0];
    }
  }

  lemma ShownPredictions(entries: seq<LexiconEntry>, rs: seq<NgramRecord>, limit: nat)
    requires forall i | 0 <= i < |rs| :: rs[i].next in LexiconIndex(Forms(entries))
    requires forall i | 0 <= i < |rs| :: rs[i].next in Forms(entries)
    ensures
      var ps := Take(PredictionsOf(LexiconIndex(Forms(entries)), rs), limit);
      && (forall i | 0 <= i < |ps| :: ps[i].next < |entries|)
      && Show(entries, ps) == Displayed(entries, Take(rs, limit))
  {
    hide LexiconIndex;
    var forms, index := Forms(entries), LexiconIndex(Forms(entries));
    LexiconIndexInjective(forms);
    var ps, shown := Take(PredictionsOf(index, rs), limit), Take(rs, limit);
    forall i | 0 <= i < |ps| ensures Show(entries, ps)[i] == Displayed(entries, shown)[i] {
      assert ps[i] == PredictionsOf(index, rs)[i] && shown[i] == rs[i];
    }
  }

  /** One lookup, as shown to the caller. */
  lemma LookupAnswers(entries: seq<LexiconEntry>, rs: seq<NgramRecord>, context: seq<Str>, key: seq<nat>, limit: nat)
    requires |entries| <= U32_MAX && Arity(rs, |context|) && LookupKey(entries, context, key)
    ensures
      var m := IndexOf(SectionOf(LexiconIndex(Forms(entries)), rs));
      && (key in m <==> Expected(Forms(entries), rs, context) != [])
      && (key in m ==> (forall i | 0 <= i < |Take(m[key], limit)| :: Take(m[key], limit)[i].next < |entries|)
                       && Show(entries, Take(m[key], limit)) == Answer(entries, rs, context, limit))
  {
    hide Expected;
    hide LookupKey;
    hide LexiconIndex;
    hide SectionOf;
    hide IndexOf;
    hide Take;
    LookupIsExpected(entries, rs, context, key);
    ExpectedResolves(Forms(entries), rs, context);
    ShownPredictions(entries, Expected(Forms(entries), rs, context), limit);
  }

  /** A context with a word the engine cannot resolve has no expected records. */
  lemma UnresolvedIsUnexpected(entries: seq<LexiconEntry>, rs: seq<NgramRecord>, context: seq<Str>, i: nat)
    requires i < |context| && ContextIndex(entries, context[i]).None?
    ensures Expected(Forms(entries), rs, context) == []
  {
    if context[i] != [] {
      PositionIsFirst(Forms(entries), context[i]);
    }
  }

  // The theorems

  /** What a two-word query on the compiled pack is answered with. */
  ghost function ExpectedResult(entries: seq<LexiconEntry>, bigrams: seq<NgramRecord>, trigrams: seq<NgramRecord>,
                                norm: Normalizer, previous2: Str, previous1: Str, limit: nat): ContextResult
  {
    var f2, f1 := norm(previous2), norm(previous1);
    if limit == 0 then NO_PREDICTION
    else if Expected(Forms(entries), trigrams, [f2, f1]) != [] then
      ContextResult(Some(Trigram), Answer(entries, trigrams, [f2, f1], limit))
    else if Expected(Forms(entries), bigrams, [f1]) != [] then
      ContextResult(Some(BigramBackoff), Answer(entries, bigrams, [f1], limit))
    else NO_PREDICTION
  }

  lemma ExpectedResultDescends(entries: seq<LexiconEntry>, bigrams: seq<NgramRecord>, trigrams: seq<NgramRecord>,
                               norm: Normalizer, previous2: Str, previous1: Str, limit: nat)
    ensures Descending(ExpectedResult(entries, bigrams, trigrams, norm, previous2, previous1, limit).predictions)
  {
    hide Answer;
    hide Expected;
    AnswerDescends(entries, trigrams, [norm(previous2), norm(previous1)], limit);
    AnswerDescends(entries, bigrams, [norm(previous1)], limit);
  }

  lemma LookupKeys(entries: seq<LexiconEntry>, f2: Str, f1: Str)
    ensures
      var i2, i1 := ContextIndex(entries, f2), ContextIndex(entries, f1);
      && (i1.Some? ==> LookupKey(entries, [f1], [i1.value]))
      && (i2.Some? && i1.Some? ==> LookupKey(entries, [f2, f1], [i2.value, i1.value]))
  {
    hide ContextIndex;
  }

  /** Main theorem: on the sections the compiler produces, a two-word query returns the first
      `limit` in-lexicon trigram records of its context in the record order; without any, the
      same for the bigrams of the last word; otherwise nothing. The source names the branch. */
  lemma CompiledPredictions(entries: seq<LexiconEntry>, bigrams: seq<NgramRecord>, trigrams: seq<NgramRecord>,
                            norm: Normalizer, previous2: Str, previous1: Str, limit: nat)
    requires |entries| <= U32_MAX && Arity(bigrams, 1) && Arity(trigrams, 2)
    requires
      var index := LexiconIndex(Forms(entries));
      && NgramsBelow(IndexOf(SectionOf(index, bigrams)), |entries|)
      && NgramsBelow(IndexOf(SectionOf(index, trigrams)), |entries|)
    ensures
      var index := LexiconIndex(Forms(entries));
      var b, t := IndexOf(SectionOf(index, bigrams)), IndexOf(SectionOf(index, trigrams));
      && PredictWithContext(entries, b, t, norm, previous2, previous1, limit)
         == ExpectedResult(entries, bigrams, trigrams, norm, previous2, previous1, limit)
      && PredictNext(entries, b, norm, previous1, limit) == Answer(entries, bigrams, [norm(previous1)], limit)
  {
    hide ContextIndex;
    hide Expected;
    hide LookupKey;
    hide LexiconIndex;
    hide SectionOf;
    hide IndexOf;
    var f2, f1 := norm(previous2), norm(previous1);
    var i2, i1 := ContextIndex(entries, f2), ContextIndex(entries, f1);
    LookupKeys(entries, f2, f1);
    if i1.None? {
      UnresolvedIsUnexpected(entries, bigrams, [f1], 0);
      UnresolvedIsUnexpected(entries, trigrams, [f2, f1], 1);
    } else {
      LookupAnswers(entries, bigrams, [f1], [i1.value], limit);
      if i2.None? {
        UnresolvedIsUnexpected(entries, trigrams, [f2, f1], 0);
      } else {
        LookupAnswers(entries, trigrams, [f2, f1], [i2.value, i1.value], limit);
      }
    }
  }

  /** Compile, then load, then predict: what the loaded pack answers, in terms of the records. */
  lemma CompileLoadPredict(c: Codec, es: seq<SourceEntry>, includeFrequencies: bool, bigrams: seq<NgramRecord>,
                           trigrams: seq<NgramRecord>, norm: Normalizer, previous2: Str, previous1: Str, limit: nat)
    requires c.Lawful() && Compilable(c, es, includeFrequencies, bigrams, trigrams)
    requires Arity(bigrams, 1) && Arity(trigrams, 2)
    requires UsageFrom(c, NO_USAGE, PackEntries(es, includeFrequencies)).Fits()
    ensures
      var p := ParsePack(c, EncodePack(c, PackOf(es, includeFrequencies, bigrams, trigrams)));
      && p.Ok? && p.value.entries == PackEntries(es, includeFrequencies)
      && NgramsBelow(IndexOf(p.value.bigrams), |es|) && NgramsBelow(IndexOf(p.value.trigrams), |es|)
      && PredictWithContext(p.value.entries, IndexOf(p.value.bigrams), IndexOf(p.value.trigrams), norm,
                            previous2, previous1, limit)
         == ExpectedResult(PackEntries(es, includeFrequencies), bigrams, trigrams, norm, previous2, previous1, limit)
      && PredictNext(p.value.entries, IndexOf(p.value.bigrams), norm, previous1, limit)
         == Answer(PackEntries(es, includeFrequencies), bigrams, [norm(previous1)], limit)
      && Descending(PredictWithContext(p.value.entries, IndexOf(p.value.bigrams), IndexOf(p.value.trigrams), norm,
                                       previous2, previous1, limit).predictions)
      && Descending(PredictNext(p.value.entries, IndexOf(p.value.bigrams), norm, previous1, limit))
  {
    hide Descending;
    hide ParsePack;
    hide EncodePack;
    hide SectionCompiles;
    hide SectionOf;
    hide ContextFits;
    hide EncodePayload;
    hide IndexOf;
    hide Expected;
    hide ContextIndex;
    hide LexiconIndex;
    hide PackEntry;
    hide EntryFits;
    hide Usage.Add;
    hide Usage.Fits;
    var p, entries := PackOf(es, includeFrequencies, bigrams, trigrams), PackEntries(es, includeFrequencies);
    CompiledPackLoads(c, es, includeFrequencies, bigrams, trigrams);
    CompiledSectionsFit(c, es, includeFrequencies, bigrams, trigrams);
    IndexBelow(p.bigrams, |es|, 1, MAX_BIGRAM_PREDICTIONS);
    IndexBelow(p.trigrams, |es|, 2, MAX_TRIGRAM_PREDICTIONS);
    PackedForms(es, includeFrequencies);
    CompiledPredictions(entries, bigrams, trigrams, norm, previous2, previous1, limit);
    ExpectedResultDescends(entries, bigrams, trigrams, norm, previous2, previous1, limit);
    AnswerDescends(entries, bigrams, [norm(previous1)], limit);
  }

  lemma PackedForms(es: seq<SourceEntry>, includeFrequencies: bool)
    ensures Forms(PackEntries(es, includeFrequencies)) == SourceForms(es)
  {
  }

  /** With unique forms, the engine follows every context of known words. */
  lemma UniqueFormsAnswer(entries: seq<LexiconEntry>, context: seq<Str>)
    requires UniqueForms(entries)
    ensures Answers(Forms(entries), context)
            <==> forall i | 0 <= i < |context| :: context[i] != [] && context[i] in Forms(entries)
  {
    forall w | w in Forms(entries) ensures Once(Forms(entries), w) {
    }
  }

  /** Without, it can lose records: with "a" twice in the lexicon, the compiled record of "a b"
      is never returned. */
  lemma DuplicateFormLosesRecord(forms: seq<Str>, r: NgramRecord)
    requires forms == ["a", "a", "b"] && r == NgramRecord(["a"], "b", 1, 1, PROBABILITY_SCALE)
    ensures Matching(forms, [r], ["a"]) == [r] && Expected(forms, [r], ["a"]) == []
    ensures PredictionCount(SectionOf(LexiconIndex(forms), [r])) == 1
  {
    hide LexiconIndex;
    hide SectionOf;
    hide InLexicon;
    hide Once;
    var index := LexiconIndex(forms);
    LexiconIndexInjective(forms);
    ExampleInLexicon(forms, r);
    SectionKeepsEveryRecord(index, [r], 1);
    assert Init([r]) == [] && Last([r]) == r;
    assert InLexiconCount(index, []) == 0;
  }

  lemma ExampleInLexicon(forms: seq<Str>, r: NgramRecord)
    requires forms == ["a", "a", "b"] && r == NgramRecord(["a"], "b", 1, 1, PROBABILITY_SCALE)
    ensures InLexicon(LexiconIndex(forms), r) && KeysBelow(LexiconIndex(forms), |forms|)
    ensures r.next in forms && !Answers(forms, ["a"])
  {
    hide LexiconIndex;
    assert forms[0] == "a" && forms[1] == "a" && forms[2] == "b" && ["a"][0] == "a";
    LexiconIndexInjective(forms);
    LexiconIndexBelow(forms, "a");
    LexiconIndexBelow(forms, "b");
  }
}
