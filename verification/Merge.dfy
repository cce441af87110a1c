/** Merging source lexicons: one entry per normalized form. */
module Merge {
  import opened Wrappers
  import opened Orders
  import opened Lexicon
  import opened CompiledPack

  const PROPER_NOUN: Str := "proper_noun"

  /** Unicode's letter case, as two character classes. */
  datatype LetterCase = LetterCase(isUpper: char -> bool, isLower: char -> bool) {
    predicate StartsUpper(w: Str) {
      w != [] && isUpper(w[0])
    }

    predicate StartsLower(w: Str) {
      w != [] && isLower(w[0])
    }
  }

  // What merging is to compute

  /** `have` followed by what `more` adds to it. */
  function AddMissing(have: seq<Str>, more: seq<Str>): seq<Str> {
    if more == [] then have
    else
      var rest := AddMissing(have, Init(more));
      if Last(more) in rest then rest else rest + [Last(more)]
  }

  lemma {:induction false} AddMissingMembers(have: seq<Str>, more: seq<Str>)
    ensures forall s :: s in AddMissing(have, more) <==> s in have || s in more
  {
    if more != [] {
      AddMissingMembers(have, Init(more));
      assert more == Init(more) + [Last(more)];
    }
  }

  /** The entry displays a lowercase word and is no proper noun. */
  predicate Common(lc: LetterCase, e: SourceEntry) {
    lc.StartsLower(e.word) && e.partOfSpeech != PROPER_NOUN
  }

  function MergeInto(lc: LetterCase, existing: SourceEntry, e: SourceEntry): SourceEntry {
    existing.(
    word := if lc.StartsUpper(existing.word) && Common(lc, e) then e.word else existing.word,
    frequency := if e.frequency > existing.frequency then e.frequency else existing.frequency,
    sources := AddMissing(existing.sources, e.sources),
    variants := AddMissing(existing.variants, e.variants))
  }

  /** The entries of one form, in input order. */
  function FormEntries(es: seq<SourceEntry>, w: Str): seq<SourceEntry> {
    if es == [] then [] else FormEntries(Init(es), w) + if Last(es).normalized == w then [Last(es)] else []
  }

  lemma {:induction false} FormEntriesMembers(es: seq<SourceEntry>, w: Str)
    ensures forall e :: e in FormEntries(es, w) <==> e in es && e.normalized == w
  {
    if es != [] {
      FormEntriesMembers(Init(es), w);
      assert es == Init(es) + [Last(es)];
    }
  }

  /** The later entries merged into the first, one by one. */
  function Merged(lc: LetterCase, group: seq<SourceEntry>): SourceEntry
    requires group != []
  {
    if |group| == 1 then group[0] else MergeInto(lc, Merged(lc, Init(group)), Last(group))
  }

  function Tidy(e: SourceEntry): SourceEntry {
    e.(sources := Canonical(e.sources), variants := Canonical(e.variants))
  }

  // What the merged entry means, said without merging

  /** Equal in every field that merging leaves alone. */
  predicate SameButMerged(a: SourceEntry, b: SourceEntry) {
    b == a.(word := b.word, frequency := b.frequency, sources := b.sources, variants := b.variants)
  }

  ghost predicate SomeSource(group: seq<SourceEntry>, s: Str) {
    exists i :: 0 <= i < |group| && s in group[i].sources
  }

  ghost predicate SomeVariant(group: seq<SourceEntry>, s: Str) {
    exists i :: 0 <= i < |group| && s in group[i].variants
  }

  ghost predicate MaximumFrequency(group: seq<SourceEntry>, f: u64) {
    (forall i | 0 <= i < |group| :: group[i].frequency <= f) && exists i :: 0 <= i < |group| && group[i].frequency == f
  }

  /** A capitalised first word gives way to a lowercase one of a later common word, if any;
      otherwise the first word stays. */
  ghost predicate PreferredWord(lc: LetterCase, group: seq<SourceEntry>, w: Str)
    requires group != []
  {
    if lc.StartsUpper(group[0].word) && exists j :: 0 < j < |group| && Common(lc, group[j])
    then exists j :: 0 < j < |group| && Common(lc, group[j]) && w == group[j].word
    else w == group[0].word
  }

  /** No character is both an upper-case and a lower-case letter. */
  ghost predicate CasesDisjoint(lc: LetterCase) {
    forall c: char :: !(lc.isUpper(c) && lc.isLower(c))
  }

  /** The earliest later common word. */
  ghost predicate EarliestCommon(lc: LetterCase, group: seq<SourceEntry>, j: nat) {
    0 < j < |group| && Common(lc, group[j]) && forall k | 0 < k < j :: !Common(lc, group[k])
  }

  lemma {:induction false} MergedKeepsFirst(lc: LetterCase, group: seq<SourceEntry>)
    requires group != []
    ensures SameButMerged(group[0], Merged(lc, group))
  {
    if |group| > 1 {
      MergedKeepsFirst(lc, Init(group));
    }
  }

  lemma {:induction false} MergedFrequencyIsMaximum(lc: LetterCase, group: seq<SourceEntry>)
    requires group != []
    ensures MaximumFrequency(group, Merged(lc, group).frequency)
  {
    if |group| > 1 {
      var rest := Init(group);
      MergedFrequencyIsMaximum(lc, rest);
      var i :| 0 <= i < |rest| && rest[i].frequency == Merged(lc, rest).frequency;
      assert group[i] == rest[i] && forall j | 0 <= j < |rest| :: group[j] == rest[j];
      assert group[|rest|] == Last(group);
    }
  }

  lemma {:induction false} MergedSourcesAreUnion(lc: LetterCase, group: seq<SourceEntry>)
    requires group != []
    ensures forall s :: s in Merged(lc, group).sources <==> SomeSource(group, s)
    ensures forall s :: s in Merged(lc, group).variants <==> SomeVariant(group, s)
  {
    hide AddMissing;
    if |group| > 1 {
      var rest := Init(group);
      MergedSourcesAreUnion(lc, rest);
      AddMissingMembers(Merged(lc, rest).sources, Last(group).sources);
      AddMissingMembers(Merged(lc, rest).variants, Last(group).variants);
      assert forall i | 0 <= i < |rest| :: rest[i] == group[i];
      assert group[|rest|] == Last(group);
    }
  }

  lemma {:induction false} MergedWordIsPreferred(lc: LetterCase, group: seq<SourceEntry>)
    requires group != []
    ensures PreferredWord(lc, group, Merged(lc, group).word)
  {
    hide AddMissing;
    if |group| > 1 {
      var rest, n := Init(group), |group| - 1;
      MergedWordIsPreferred(lc, rest);
      assert forall i | 0 <= i < n :: rest[i] == group[i];
      if j :| 0 < j < n && Common(lc, rest[j]) && Merged(lc, rest).word == rest[j].word {
        assert Common(lc, group[j]);
      }
    }
  }

  /** As in Unicode no letter has both cases, it is the earliest such word that replaces a
      capitalised first one, and none replaces it afterwards. */
  lemma {:induction false} MergedWordIsEarliest(lc: LetterCase, group: seq<SourceEntry>, j: nat)
    requires group != [] && CasesDisjoint(lc) && lc.StartsUpper(group[0].word) && EarliestCommon(lc, group, j)
    ensures Merged(lc, group).word == group[j].word
  {
    hide AddMissing;
    hide Common;
    hide LetterCase.StartsUpper;
    var rest := Init(group);
    assert forall i | 0 <= i < |rest| :: rest[i] == group[i];
    MergedWordIsPreferred(lc, rest);
    if j < |rest| {
      assert EarliestCommon(lc, rest, j);
      MergedWordIsEarliest(lc, rest, j);
      CommonIsNotUpper(lc, group[j]);
    }
  }

  lemma CommonIsNotUpper(lc: LetterCase, e: SourceEntry)
    requires CasesDisjoint(lc) && Common(lc, e)
    ensures !lc.StartsUpper(e.word)
  {
  }

  // The method

  predicate MergeLeq(a: SourceEntry, b: SourceEntry) {
    !CompareNat(b.frequency, a.frequency).Then(CompareStr(a.normalized, b.normalized)).Greater?
  }

  lemma MergeLeqIsTotal()
    ensures TotalPreorder(MergeLeq)
    ensures forall a, b | MergeLeq(a, b) && MergeLeq(b, a) :: a.normalized == b.normalized
  {
    hide CompareStr;
    forall a, b
      ensures MergeLeq(a, b) || MergeLeq(b, a)
      ensures MergeLeq(a, b) && MergeLeq(b, a) ==> a.normalized == b.normalized
    {
      CompareStrFlips(a.normalized, b.normalized);
    }
    forall a, b, c | MergeLeq(a, b) && MergeLeq(b, c) ensures MergeLeq(a, c) {
      if StrLeq(a.normalized, b.normalized) && StrLeq(b.normalized, c.normalized) {
        CompareStrTransitive(a.normalized, b.normalized, c.normalized);
      }
    }
  }

  /** Strictly: the more frequent first, equal frequencies by form. */
  ghost predicate FrequentFirst(es: seq<SourceEntry>) {
    forall i, j | 0 <= i < j < |es| ::
      || es[i].frequency > es[j].frequency
      || (es[i].frequency == es[j].frequency && StrLess(es[i].normalized, es[j].normalized))
  }

  lemma MergeOrderReads(es: seq<SourceEntry>)
    requires Sorted(MergeLeq, es)
    requires forall i, j | 0 <= i < j < |es| :: es[i].normalized != es[j].normalized
    ensures FrequentFirst(es)
  {
    hide CompareStr;
    forall i, j | 0 <= i < j < |es|
      ensures es[i].frequency > es[j].frequency
              || (es[i].frequency == es[j].frequency && StrLess(es[i].normalized, es[j].normalized))
    {
      assert MergeLeq(es[i], es[j]);
      CompareStrFlips(es[i].normalized, es[j].normalized);
    }
  }

  /** Appends the elements not there yet. */
  method PushMissing(have: seq<Str>, more: seq<Str>) returns (all: seq<Str>)
    ensures all == AddMissing(have, more)
  {
    all := have;
    for i := 0 to |more|
      invariant all == AddMissing(have, more[..i])
    {
      assert Init(more[..i + 1]) == more[..i] && Last(more[..i + 1]) == more[i];
      if more[i] !in all {
        all := all + [more[i]];
      }
    }
    assert more[..|more|] == more;
  }

  ghost predicate MergedMap(lc: LetterCase, es: seq<SourceEntry>, m: map<Str, SourceEntry>) {
    && (forall w :: w in m <==> FormEntries(es, w) != [])
    && (forall w | w in m :: m[w] == Merged(lc, FormEntries(es, w)))
  }

  /** One more entry joins the entry of its form, or becomes it. */
  lemma MergedMapStep(lc: LetterCase, es: seq<SourceEntry>, e: SourceEntry, m: map<Str, SourceEntry>)
    requires MergedMap(lc, es, m)
    ensures
      MergedMap(lc, es + [e],
                m[e.normalized := if e.normalized in m then MergeInto(lc, m[e.normalized], e) else e])
  {
    hide MergeInto;
    hide FormEntries;
    var all, w := es + [e], e.normalized;
    FormEntriesAppend(es, e);
    var group := FormEntries(es, w) + [e];
    assert FormEntries(all, w) == group;
    assert Init(group) == FormEntries(es, w) && Last(group) == e;
  }

  lemma FormEntriesAppend(es: seq<SourceEntry>, e: SourceEntry)
    ensures forall w :: FormEntries(es + [e], w)
                        == if e.normalized == w then FormEntries(es, w) + [e] else FormEntries(es, w)
  {
    assert Init(es + [e]) == es && Last(es + [e]) == e;
    forall w ensures FormEntries(es, w) + [] == FormEntries(es, w) {
    }
  }

  method MergeByForm(lc: LetterCase, es: seq<SourceEntry>) returns (m: map<Str, SourceEntry>)
    ensures MergedMap(lc, es, m)
  {
    hide MergedMap;
    hide AddMissing;
    m := map[];
    NothingMerged(lc, es);
    for i := 0 to |es|
      invariant MergedMap(lc, es[..i], m)
    {
      var e := es[i];
      MergedMapStep(lc, es[..i], e, m);
      assert es[..i + 1] == es[..i] + [e];
      if e.normalized in m {
        var existing := m[e.normalized];
        var word, frequency := existing.word, existing.frequency;
        if lc.StartsUpper(existing.word) && lc.StartsLower(e.word) && e.partOfSpeech != PROPER_NOUN {
          word := e.word;
        }
        if e.frequency > existing.frequency {
          frequency := e.frequency;
        }
        var sources := PushMissing(existing.sources, e.sources);
        var variants := PushMissing(existing.variants, e.variants);
        existing := existing.(word := word, frequency := frequency, sources := sources, variants := variants);
        m := m[e.normalized := existing];
      } else {
        m := m[e.normalized := e];
      }
    }
    assert es[..|es|] == es;
  }

  lemma NothingMerged(lc: LetterCase, es: seq<SourceEntry>)
    ensures MergedMap(lc, es[..0], map[])
  {
    assert es[..0] == [];
  }

  /** One entry per normalized form, which is the merge of that form's entries with sources and
      variants sorted; the most frequent first, equal frequencies in form order. */
  method MergeAndDeduplicate(lc: LetterCase, es: seq<SourceEntry>) returns (result: seq<SourceEntry>)
    ensures forall i, j | 0 <= i < j < |result| :: result[i].normalized != result[j].normalized
    ensures forall w :: (exists i :: 0 <= i < |result| && result[i].normalized == w) <==> FormEntries(es, w) != []
    ensures forall i | 0 <= i < |result| ::
              var group := FormEntries(es, result[i].normalized);
              group != [] && result[i] == Tidy(Merged(lc, group))
    ensures FrequentFirst(result)
  {
    hide FrequentFirst;
    hide Merged;
    hide FormEntries;
    hide Canonical;
    hide MergeLeq;
    var m := MergeByForm(lc, es);
    var keys := Enumerate(m.Keys);
    var values := seq(|keys|, i requires 0 <= i < |keys| => Tidy(m[keys[i]]));
    FormsOfMerged(lc, es, m);
    result := SortBy(MergeLeq, values);
    MergeLeqIsTotal();
    SortBySorts(MergeLeq, values);
    SortedValues(lc, es, m, keys, values, result);
    MergeOrderReads(result);
  }

  lemma FormsOfMerged(lc: LetterCase, es: seq<SourceEntry>, m: map<Str, SourceEntry>)
    requires MergedMap(lc, es, m)
    ensures forall w | w in m :: m[w].normalized == w
  {
    hide Merged;
    forall w | w in m ensures m[w].normalized == w {
      MergedKeepsFirst(lc, FormEntries(es, w));
      FormEntriesMembers(es, w);
      assert FormEntries(es, w)[0] in FormEntries(es, w);
    }
  }

  /** Sorting the values permutes them: each still stands for its own form. */
  lemma SortedValues(lc: LetterCase, es: seq<SourceEntry>, m: map<Str, SourceEntry>, keys: seq<Str>,
                     values: seq<SourceEntry>, result: seq<SourceEntry>)
    requires Distinct(keys) && (forall k :: k in keys <==> k in m) && |values| == |keys|
    requires forall i | 0 <= i < |keys| :: values[i] == Tidy(m[keys[i]])
    requires forall w | w in m :: m[w].normalized == w
    requires multiset(result) == multiset(values)
    ensures forall i, j | 0 <= i < j < |result| :: result[i].normalized != result[j].normalized
    ensures forall w :: (exists i :: 0 <= i < |result| && result[i].normalized == w) <==> w in m
    ensures forall i | 0 <= i < |result| :: result[i].normalized in m && result[i] == Tidy(m[result[i].normalized])
  {
    hide Canonical;
    SameElements(result, values);
    forall i | 0 <= i < |values| ensures values[i].normalized == keys[i] {
      assert keys[i] in keys;
    }
    DistinctPermutation(values, result);
    forall i | 0 <= i < |result| ensures result[i].normalized in m && result[i] == Tidy(m[result[i].normalized]) {
      assert result[i] in values;
      var k :| 0 <= k < |values| && values[k] == result[i];
      assert keys[k] in keys;
    }
    forall w | w in m ensures exists i :: 0 <= i < |result| && result[i].normalized == w {
      var k :| 0 <= k < |keys| && keys[k] == w;
      assert values[k] in result;
      var i :| 0 <= i < |result| && result[i] == values[k];
      assert result[i].normalized == w;
    }
  }
}
