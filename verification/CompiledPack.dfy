/** What the pack compiler is to produce from source entries and n-gram records: the entries in
    canonical form, and per context the in-lexicon records in a fixed order. */
module CompiledPack {
  import opened Wrappers
  import opened Orders
  import opened Lexicon
  import opened PackFormat

  datatype SourceEntry = SourceEntry(
    word: Str,
    lemmaForm: Str,
    normalized: Str,
    partOfSpeech: Str,
    frequency: u64,
    regions: seq<Str>,
    status: Str,
    variants: seq<Str>,
    sources: seq<Str>,
    metadata: Option<FrequencyMetadata>)

  /** A bigram (one context word) or a trigram (two). */
  datatype NgramRecord = NgramRecord(context: seq<Str>, next: Str, count: u64, contextCount: u64, probability: u32)

  // Entries

  /** Sorted, without repetitions. */
  function Canonical(ss: seq<Str>): seq<Str> {
    Dedup(SortBy(StrLeq, ss))
  }

  lemma CanonicalIsSortedSet(ss: seq<Str>)
    ensures StrictlySorted(Canonical(ss))
    ensures forall s :: s in Canonical(ss) <==> s in ss
  {
    StrLeqIsTotalOrder();
    SortBySorts(StrLeq, ss);
    DedupSorted(StrLeq, SortBy(StrLeq, ss));
    DedupKeepsElements(SortBy(StrLeq, ss));
    var r := Canonical(ss);
    forall i, j | 0 <= i < j < |r| ensures StrLess(r[i], r[j]) {
      assert StrLeq(r[i], r[j]) && r[i] != r[j];
      CompareStrFlips(r[i], r[j]);
    }
  }

  /** The entry as it is encoded. */
  function PackEntry(e: SourceEntry, includeFrequencies: bool): LexiconEntry {
    LexiconEntry(
      e.word, e.normalized, e.lemmaForm, e.partOfSpeech,
      if includeFrequencies then e.frequency else 0,
      Canonical(e.regions), e.status, Canonical(e.sources),
      if includeFrequencies && e.metadata.Some? then e.metadata.value else NO_FREQUENCY)
  }

  function PackEntries(es: seq<SourceEntry>, includeFrequencies: bool): (r: seq<LexiconEntry>)
    ensures |r| == |es| && forall i | 0 <= i < |es| :: r[i] == PackEntry(es[i], includeFrequencies)
  {
    seq(|es|, i requires 0 <= i < |es| => PackEntry(es[i], includeFrequencies))
  }

  /** Where each normalized form is: at its last occurrence. */
  function LexiconIndex(forms: seq<Str>): map<Str, nat> {
    if forms == [] then map[] else LexiconIndex(Init(forms))[Last(forms) := |forms| - 1]
  }

  ghost predicate IsLast(forms: seq<Str>, w: Str, i: nat) {
    i < |forms| && forms[i] == w && forall j | i < j < |forms| :: forms[j] != w
  }

  lemma {:induction false} LexiconIndexIsLast(forms: seq<Str>, w: Str)
    ensures w in LexiconIndex(forms) <==> w in forms
    ensures w in LexiconIndex(forms) ==> IsLast(forms, w, LexiconIndex(forms)[w])
  {
    if forms != [] {
      var rest := Init(forms);
      LexiconIndexIsLast(rest, w);
      assert forms == rest + [Last(forms)];
      assert forall j | 0 <= j < |rest| :: forms[j] == rest[j];
    }
  }

  lemma LexiconIndexBelow(forms: seq<Str>, w: Str)
    requires w in forms
    ensures w in LexiconIndex(forms) && LexiconIndex(forms)[w] < |forms| && forms[LexiconIndex(forms)[w]] == w
  {
    hide LexiconIndex;
    LexiconIndexIsLast(forms, w);
  }

  function SourceForms(es: seq<SourceEntry>): (r: seq<Str>)
    ensures |r| == |es| && forall i | 0 <= i < |es| :: r[i] == es[i].normalized
  {
    seq(|es|, i requires 0 <= i < |es| => es[i].normalized)
  }

  // Records

  predicate RecordValid(r: NgramRecord) {
    r.contextCount > 0 && 0 < r.count <= r.contextCount && r.probability <= PROBABILITY_SCALE
  }

  ghost predicate NoDuplicates(rs: seq<NgramRecord>) {
    forall i, j | 0 <= i < j < |rs| :: rs[i].context != rs[j].context || rs[i].next != rs[j].next
  }

  ghost predicate RecordsValid(rs: seq<NgramRecord>) {
    (forall i | 0 <= i < |rs| :: RecordValid(rs[i])) && NoDuplicates(rs)
  }

  /** All words of the record are in the lexicon. */
  predicate InLexicon(index: map<Str, nat>, r: NgramRecord) {
    r.next in index && forall i | 0 <= i < |r.context| :: r.context[i] in index
  }

  function KeyOf(index: map<Str, nat>, context: seq<Str>): (key: seq<nat>)
    requires forall i | 0 <= i < |context| :: context[i] in index
    ensures |key| == |context| && forall i | 0 <= i < |key| :: key[i] == index[context[i]]
  {
    seq(|context|, i requires 0 <= i < |context| => index[context[i]])
  }

  predicate HasKey(index: map<Str, nat>, r: NgramRecord, key: seq<nat>) {
    InLexicon(index, r) && KeyOf(index, r.context) == key
  }

  /** The in-lexicon records of one context. */
  function Group(index: map<Str, nat>, rs: seq<NgramRecord>, key: seq<nat>): seq<NgramRecord> {
    if rs == [] then []
    else Group(index, Init(rs), key) + if HasKey(index, Last(rs), key) then [Last(rs)] else []
  }

  /** Probability descending, count descending, word ascending. */
  function CompareRecord(a: NgramRecord, b: NgramRecord): Ordering {
    CompareNat(b.probability, a.probability).Then(CompareNat(b.count, a.count)).Then(CompareStr(a.next, b.next))
  }

  predicate RecordLeq(a: NgramRecord, b: NgramRecord) {
    !CompareRecord(a, b).Greater?
  }

  /** Greater probability first, then greater count, then the word that comes first. */
  predicate Outranks(a: NgramRecord, b: NgramRecord) {
    || a.probability > b.probability
    || (a.probability == b.probability && a.count > b.count)
    || (a.probability == b.probability && a.count == b.count && StrLess(a.next, b.next))
  }

  lemma RecordOrderReads(a: NgramRecord, b: NgramRecord)
    ensures RecordLeq(a, b)
            <==> Outranks(a, b) || (a.probability == b.probability && a.count == b.count && a.next == b.next)
  {
    hide CompareStr;
    CompareStrFlips(a.next, b.next);
  }

  /** Tuples of 32-bit integers compare like the numbers they spell in base 2^32. */
  predicate KeyLeq(a: seq<nat>, b: seq<nat>) {
    Rank(a, 0x1_0000_0000) <= Rank(b, 0x1_0000_0000)
  }

  /** The keys of the in-lexicon records, in record order. */
  function Keys(index: map<Str, nat>, rs: seq<NgramRecord>): seq<seq<nat>> {
    if rs == [] then []
    else Keys(index, Init(rs)) + if InLexicon(index, Last(rs)) then [KeyOf(index, Last(rs).context)] else []
  }

  function SectionKeys(index: map<Str, nat>, rs: seq<NgramRecord>): seq<seq<nat>> {
    Dedup(SortBy(KeyLeq, Keys(index, rs)))
  }

  function PredictionsOf(index: map<Str, nat>, rs: seq<NgramRecord>): (r: seq<Prediction>)
    requires forall i | 0 <= i < |rs| :: rs[i].next in index
    ensures |r| == |rs|
    ensures forall i | 0 <= i < |rs| :: r[i] == Prediction(index[rs[i].next], rs[i].count, rs[i].probability)
  {
    seq(|rs|, i requires 0 <= i < |rs| => Prediction(index[rs[i].next], rs[i].count, rs[i].probability))
  }

  function SortedGroup(index: map<Str, nat>, rs: seq<NgramRecord>, key: seq<nat>): seq<NgramRecord> {
    SortBy(RecordLeq, Group(index, rs, key))
  }

  function ContextOf(index: map<Str, nat>, rs: seq<NgramRecord>, key: seq<nat>): Context {
    SortedGroupResolves(index, rs, key);
    Context(key, PredictionsOf(index, SortedGroup(index, rs, key)))
  }

  /** The contexts of a section, ascending. */
  function SectionOf(index: map<Str, nat>, rs: seq<NgramRecord>): (r: seq<Context>)
    ensures |r| == |SectionKeys(index, rs)|
    ensures forall i | 0 <= i < |r| :: r[i] == ContextOf(index, rs, SectionKeys(index, rs)[i])
  {
    var keys := SectionKeys(index, rs);
    seq(|keys|, i requires 0 <= i < |keys| => ContextOf(index, rs, keys[i]))
  }

  lemma {:induction false} GroupMembers(index: map<Str, nat>, rs: seq<NgramRecord>, key: seq<nat>)
    ensures forall r :: r in Group(index, rs, key) <==> r in rs && HasKey(index, r, key)
  {
    hide HasKey;
    if rs != [] {
      GroupMembers(index, Init(rs), key);
      assert rs == Init(rs) + [Last(rs)];
    }
  }

  lemma RecordLeqIsTotal()
    ensures TotalPreorder(RecordLeq)
    ensures forall a, b | RecordLeq(a, b) && RecordLeq(b, a) :: a.next == b.next
  {
    forall a, b
      ensures RecordLeq(a, b) || RecordLeq(b, a)
      ensures RecordLeq(a, b) && RecordLeq(b, a) ==> a.next == b.next
    {
      RecordLeqFlips(a, b);
    }
    forall a, b, c | RecordLeq(a, b) && RecordLeq(b, c) ensures RecordLeq(a, c) {
      RecordLeqTransitive(a, b, c);
    }
  }

  lemma RecordLeqFlips(a: NgramRecord, b: NgramRecord)
    ensures RecordLeq(a, b) || RecordLeq(b, a)
    ensures RecordLeq(a, b) && RecordLeq(b, a) ==> a.next == b.next
  {
    hide CompareStr;
    CompareStrFlips(a.next, b.next);
  }

  lemma RecordLeqTransitive(a: NgramRecord, b: NgramRecord, c: NgramRecord)
    requires RecordLeq(a, b) && RecordLeq(b, c)
    ensures RecordLeq(a, c)
  {
    hide CompareStr;
    if StrLeq(a.next, b.next) && StrLeq(b.next, c.next) {
      CompareStrTransitive(a.next, b.next, c.next);
    }
  }

  lemma SortedGroupMembers(index: map<Str, nat>, rs: seq<NgramRecord>, key: seq<nat>)
    ensures |SortedGroup(index, rs, key)| == |Group(index, rs, key)|
    ensures forall r :: r in SortedGroup(index, rs, key) <==> r in rs && HasKey(index, r, key)
    ensures Sorted(RecordLeq, SortedGroup(index, rs, key))
    ensures multiset(SortedGroup(index, rs, key)) == multiset(Group(index, rs, key))
  {
    RecordLeqIsTotal();
    SortBySorts(RecordLeq, Group(index, rs, key));
    GroupMembers(index, rs, key);
  }

  lemma SortedGroupResolves(index: map<Str, nat>, rs: seq<NgramRecord>, key: seq<nat>)
    ensures forall i | 0 <= i < |SortedGroup(index, rs, key)| :: SortedGroup(index, rs, key)[i].next in index
  {
    SortedGroupMembers(index, rs, key);
    hide SortedGroup;
    forall i | 0 <= i < |SortedGroup(index, rs, key)| ensures SortedGroup(index, rs, key)[i].next in index {
      assert SortedGroup(index, rs, key)[i] in SortedGroup(index, rs, key);
    }
  }

  lemma {:induction false} KeysMembers(index: map<Str, nat>, rs: seq<NgramRecord>)
    ensures forall key :: key in Keys(index, rs) <==> exists i :: 0 <= i < |rs| && HasKey(index, rs[i], key)
  {
    if rs != [] {
      var n := |rs| - 1;
      KeysMembers(index, Init(rs));
      forall key ensures key in Keys(index, rs) <==> exists i :: 0 <= i < |rs| && HasKey(index, rs[i], key) {
        assert HasKey(index, rs[n], key) <==> InLexicon(index, rs[n]) && KeyOf(index, rs[n].context) == key;
      }
    }
  }

  /** Tuples compare by their first difference. */
  ghost predicate KeyBefore(a: seq<nat>, b: seq<nat>) {
    exists d | 0 <= d < |a| && d < |b| :: a[..d] == b[..d] && a[d] < b[d]
  }

  lemma {:induction false} RankIsLexicographic(a: seq<nat>, b: seq<nat>, n: nat)
    requires |a| == |b| && KeyBelow(a, n) && KeyBelow(b, n) && Rank(a, n) <= Rank(b, n) && a != b
    ensures KeyBefore(a, b)
  {
    RankBelow(a[1..], n);
    RankBelow(b[1..], n);
    assert a == [a[0]] + a[1..] && b == [b[0]] + b[1..];
    if a[0] < b[0] {
      assert a[..0] == b[..0];
    } else if a[0] == b[0] {
      RankIsLexicographic(a[1..], b[1..], n);
      var d :| 0 <= d < |a| - 1 && a[1..][..d] == b[1..][..d] && a[1..][d] < b[1..][d];
      assert a[..d + 1] == [a[0]] + a[1..][..d] && b[..d + 1] == [b[0]] + b[1..][..d];
    } else {
      StepTimes(b[0], a[0], Capacity(n, |a| - 1));
    }
  }

  /** Sorted keys, each once, ascend by first difference. */
  lemma KeysRead(keys: seq<seq<nat>>, k: nat)
    requires Sorted(KeyLeq, keys) && Distinct(keys)
    requires forall i | 0 <= i < |keys| :: |keys[i]| == k && KeyBelow(keys[i], 0x1_0000_0000)
    ensures forall i, j | 0 <= i < j < |keys| :: KeyBefore(keys[i], keys[j])
  {
    hide KeyBelow;
    hide KeyBefore;
    hide Rank;
    forall i, j | 0 <= i < j < |keys| ensures KeyBefore(keys[i], keys[j]) {
      assert KeyLeq(keys[i], keys[j]) && keys[i] != keys[j];
      RankIsLexicographic(keys[i], keys[j], 0x1_0000_0000);
    }
  }

  lemma KeyLeqIsTotal()
    ensures TotalPreorder(KeyLeq)
  {
  }

  /** The section's keys are those of the in-lexicon records, each once, ascending. */
  lemma SectionKeysAscend(index: map<Str, nat>, rs: seq<NgramRecord>, k: nat)
    requires KeysBelow(index, 0x1_0000_0000) && forall i | 0 <= i < |rs| :: |rs[i].context| == k
    ensures
      var keys := SectionKeys(index, rs);
      && Sorted(KeyLeq, keys) && Distinct(keys) && NoTies(KeyLeq, keys)
      && (forall key :: key in keys <==> exists i :: 0 <= i < |rs| && HasKey(index, rs[i], key))
      && (forall i, j | 0 <= i < j < |keys| :: KeyBefore(keys[i], keys[j]))
      && forall i | 0 <= i < |keys| :: |keys[i]| == k && KeyBelow(keys[i], 0x1_0000_0000)
  {
    hide Keys;
    hide KeyLeq;
    hide HasKey;
    hide KeyBelow;
    hide KeyBefore;
    KeysMembers(index, rs);
    KeysShape(index, rs, k, 0x1_0000_0000);
    SortedKeysAscend(Keys(index, rs), k);
    var keys := SectionKeys(index, rs);
    forall i | 0 <= i < |keys| ensures |keys[i]| == k && KeyBelow(keys[i], 0x1_0000_0000) {
      assert keys[i] in keys;
    }
    KeysRead(keys, k);
  }

  lemma SortedKeysAscend(all: seq<seq<nat>>, k: nat)
    requires forall key | key in all :: |key| == k && KeyBelow(key, 0x1_0000_0000)
    ensures
      var keys := Dedup(SortBy(KeyLeq, all));
      && Sorted(KeyLeq, keys) && Distinct(keys) && NoTies(KeyLeq, keys)
      && forall key :: key in keys <==> key in all
  {
    hide KeyLeq;
    hide KeyBelow;
    var sorted := SortBy(KeyLeq, all);
    KeyLeqIsTotal();
    SortBySorts(KeyLeq, all);
    hide SortBy;
    KeysHaveNoTies(sorted, k);
    DedupSorted(KeyLeq, sorted);
    DedupKeepsElements(sorted);
  }

  ghost predicate KeysBelow(index: map<Str, nat>, n: nat) {
    forall w | w in index :: index[w] < n
  }

  lemma KeysShape(index: map<Str, nat>, rs: seq<NgramRecord>, k: nat, n: nat)
    requires KeysBelow(index, n) && forall i | 0 <= i < |rs| :: |rs[i].context| == k
    ensures forall key | key in Keys(index, rs) :: |key| == k && KeyBelow(key, n)
  {
    KeysMembers(index, rs);
    forall key | key in Keys(index, rs) ensures |key| == k && KeyBelow(key, n) {
      var i :| 0 <= i < |rs| && HasKey(index, rs[i], key);
    }
  }

  lemma KeysHaveNoTies(keys: seq<seq<nat>>, k: nat)
    requires forall key | key in keys :: |key| == k && KeyBelow(key, 0x1_0000_0000)
    ensures NoTies(KeyLeq, keys)
  {
    hide KeyBelow;
    forall x, y | x in keys && y in keys && KeyLeq(x, y) && KeyLeq(y, x) ensures x == y {
      RankInjective(x, y, 0x1_0000_0000);
    }
  }

  // What compiles

  ghost predicate SectionCompiles(index: map<Str, nat>, rs: seq<NgramRecord>, max: nat) {
    && RecordsValid(rs)
    && |SectionKeys(index, rs)| <= U32_MAX
    && forall key | key in SectionKeys(index, rs) :: |Group(index, rs, key)| <= max
  }

  function PackOf(es: seq<SourceEntry>, includeFrequencies: bool, bigrams: seq<NgramRecord>, trigrams: seq<NgramRecord>)
    : Pack
  {
    var index := LexiconIndex(SourceForms(es));
    Pack(PackEntries(es, includeFrequencies), SectionOf(index, bigrams), SectionOf(index, trigrams))
  }

  /** The inputs the compiler accepts. */
  ghost predicate Compilable(c: Codec, es: seq<SourceEntry>, includeFrequencies: bool, bigrams: seq<NgramRecord>,
                             trigrams: seq<NgramRecord>)
  {
    var index := LexiconIndex(SourceForms(es));
    && |es| <= U32_MAX && StrFits(c, LANGUAGE_TAG)
    && (forall i | 0 <= i < |es| :: EntryFits(c, PackEntry(es[i], includeFrequencies)))
    && SectionCompiles(index, bigrams, MAX_BIGRAM_PREDICTIONS)
    && SectionCompiles(index, trigrams, MAX_TRIGRAM_PREDICTIONS)
    && |EncodePayload(c, PackOf(es, includeFrequencies, bigrams, trigrams))| < 0x1_0000_0000_0000_0000
  }
}
