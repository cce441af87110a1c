/** Lexicon entries, the text codec, and the compact store: one text arena, spans into it, and
    interned tables for the values that repeat. */
module Lexicon {
  import opened Wrappers
  import opened Orders

  type byte = x: int | 0 <= x < 256

  const U32_MAX := 0xFFFF_FFFF

  datatype FrequencyMetadata = FrequencyMetadata(tokenCount: u64, documentCount: u64, zipfMilli: u32)

  const NO_FREQUENCY := FrequencyMetadata(0, 0, 0)

  datatype LexiconEntry = LexiconEntry(
    word: Str,
    normalized: Str,
    lemmaForm: Str,
    partOfSpeech: Str,
    frequency: u64,
    regions: seq<Str>,
    status: Str,
    sources: seq<Str>,
    metadata: FrequencyMetadata)

  /** UTF-8 and SHA-256, as functions of which only the laws below are used. */
  datatype Codec = Codec(
    encode: Str -> seq<byte>,
    decode: seq<byte> -> Option<Str>,
    digest: seq<byte> -> seq<byte>)
  {
    ghost predicate Lawful() {
      && (forall s :: decode(encode(s)) == Some(s))
      && (forall b :: decode(b).Some? ==> encode(decode(b).value) == b)
      && (forall b :: |digest(b)| == 32)
    }
  }

  datatype Span = Span(start: u32, len: u32)

  /** Per entry a list of ids into a table: entry `i` has `ids[offsets[i]..offsets[i + 1]]`. */
  datatype IdLists = IdLists(offsets: seq<u32>, ids: seq<u32>, table: seq<Str>) {
    ghost predicate Valid(n: nat) {
      && |offsets| == n + 1 && offsets[0] == 0 && offsets[n] == |ids|
      && (forall i, j | 0 <= i <= j <= n :: offsets[i] <= offsets[j])
      && (forall k | 0 <= k < |ids| :: ids[k] < |table|)
      && |table| <= |ids|
    }

    function Get(i: nat): seq<Str>
      requires i + 1 < |offsets| && offsets[i] <= offsets[i + 1] <= |ids|
      requires forall k | 0 <= k < |ids| :: ids[k] < |table|
    {
      Resolve(table, ids[offsets[i]..offsets[i + 1]])
    }
  }

  function Resolve(table: seq<Str>, ids: seq<u32>): (r: seq<Str>)
    requires forall k | 0 <= k < |ids| :: ids[k] < |table|
    ensures |r| == |ids| && forall k | 0 <= k < |r| :: r[k] == table[ids[k]]
  {
    seq(|ids|, k requires 0 <= k < |ids| => table[ids[k]])
  }

  datatype LexiconStore = LexiconStore(
    text: seq<byte>,
    word: seq<Span>,
    normalized: seq<Span>,
    lemmaForm: seq<Span>,
    frequency: seq<u64>,
    metadata: seq<FrequencyMetadata>,
    status: seq<u32>,
    partOfSpeech: seq<u32>,
    regions: IdLists,
    sources: IdLists,
    statusTable: seq<Str>,
    partOfSpeechTable: seq<Str>)
  {
    function Len(): nat {
      |word|
    }

    ghost predicate SpanValid(codec: Codec, span: Span) {
      span.start + span.len <= |text| && codec.decode(text[span.start..span.start + span.len]).Some?
    }

    ghost predicate Valid(codec: Codec) {
      var n := Len();
      && |text| <= U32_MAX
      && |normalized| == |lemmaForm| == |frequency| == |metadata| == |status| == |partOfSpeech| == n
      && (forall i | 0 <= i < n :: SpanValid(codec, word[i]))
      && (forall i | 0 <= i < n :: SpanValid(codec, normalized[i]))
      && (forall i | 0 <= i < n :: SpanValid(codec, lemmaForm[i]))
      && (forall i | 0 <= i < n :: status[i] < |statusTable|)
      && (forall i | 0 <= i < n :: partOfSpeech[i] < |partOfSpeechTable|)
      && |statusTable| <= n && |partOfSpeechTable| <= n
      && regions.Valid(n) && sources.Valid(n)
    }

    function Text(codec: Codec, span: Span): Str
      requires SpanValid(codec, span)
    {
      codec.decode(text[span.start..span.start + span.len]).value
    }

    function Word(codec: Codec, i: nat): Str
      requires Valid(codec) && i < Len()
    {
      Text(codec, word[i])
    }

    function Normalized(codec: Codec, i: nat): Str
      requires Valid(codec) && i < Len()
    {
      Text(codec, normalized[i])
    }

    /** Every accessor at once: the entry as the public record. */
    function Entry(codec: Codec, i: nat): LexiconEntry
      requires Valid(codec) && i < Len()
    {
      LexiconEntry(
        Word(codec, i),
        Normalized(codec, i),
        Text(codec, lemmaForm[i]),
        partOfSpeechTable[partOfSpeech[i]],
        frequency[i],
        regions.Get(i),
        statusTable[status[i]],
        sources.Get(i),
        metadata[i])
    }

    function Entries(codec: Codec): (r: seq<LexiconEntry>)
      requires Valid(codec)
      ensures |r| == Len() && forall i | 0 <= i < |r| :: r[i] == Entry(codec, i)
    {
      seq(Len(), i requires 0 <= i < Len() => Entry(codec, i))
    }
  }

  const EMPTY_STORE := LexiconStore(
    [], [], [], [], [], [], [], [], IdLists([0], [], []), IdLists([0], [], []), [], [])

  // Interning

  ghost predicate InternValid(table: seq<Str>, ids: map<Str, u32>) {
    && (forall v | v in ids :: ids[v] < |table| && table[ids[v]] == v)
    && (forall i | 0 <= i < |table| :: table[i] in ids && ids[table[i]] == i)
  }

  /** The value has an id, or the next id fits 32 bits. */
  predicate InternFits(table: seq<Str>, value: Str) {
    value in table || |table| <= U32_MAX
  }

  method Intern(table: seq<Str>, ids: map<Str, u32>, value: Str)
    returns (id: Option<u32>, table': seq<Str>, ids': map<Str, u32>)
    requires InternValid(table, ids)
    ensures id.Some? <==> InternFits(table, value)
    ensures InternValid(table', ids') && table <= table'
    ensures id.Some? ==> id.value < |table'| && table'[id.value] == value
    ensures |table'| <= |table| + 1 && (id.None? ==> table' == table)
  {
    table', ids' := table, ids;
    if value in ids {
      return Some(ids[value]), table, ids;
    }
    assert value !in table by {
      assert forall i | 0 <= i < |table| :: table[i] in ids;
    }
    if |table| > U32_MAX {
      return None, table, ids;
    }
    var next: u32 := |table|;
    table', ids' := table + [value], ids[value := next];
    return Some(next), table', ids';
  }

  method InternAll(lists: IdLists, ids: map<Str, u32>, values: seq<Str>, ghost n: nat)
    returns (ok: bool, lists': IdLists, ids': map<Str, u32>)
    requires lists.Valid(n) && InternValid(lists.table, ids)
    ensures ok <==> |lists.ids| + |values| <= U32_MAX
    ensures ok ==> InternValid(lists'.table, ids') && lists'.Valid(n + 1)
    ensures ok ==> lists'.offsets[..n + 1] == lists.offsets && lists.ids <= lists'.ids && lists.table <= lists'.table
    ensures ok ==> lists'.Get(n) == values && |lists'.ids| == |lists.ids| + |values|
  {
    var table, added: seq<u32>, map' := lists.table, [], ids;
    for i := 0 to |values|
      invariant InternValid(table, map') && lists.table <= table
      invariant |added| == i && |table| <= |lists.ids| + i
      invariant forall k | 0 <= k < i :: added[k] < |table|
      invariant Resolve(table, added) == values[..i]
    {
      var id, table';
      id, table', map' := Intern(table, map', values[i]);
      if id.None? {
        return false, lists, ids;
      }
      ResolveGrows(table, table', added);
      assert Resolve(table', added + [id.value]) == Resolve(table', added) + [values[i]];
      table, added := table', added + [id.value];
    }
    var list: seq<u32> := lists.ids + added;
    if |list| > U32_MAX {
      return false, lists, ids;
    }
    var end: u32 := |list|;
    ok, lists', ids' := true, IdLists(lists.offsets + [end], list, table), map';
    assert list[lists.offsets[n]..end] == added;
    assert values[..|values|] == values;
  }

  lemma ResolveGrows(table: seq<Str>, table': seq<Str>, ids: seq<u32>)
    requires table <= table' && forall k | 0 <= k < |ids| :: ids[k] < |table|
    ensures Resolve(table', ids) == Resolve(table, ids)
  {
    forall k | 0 <= k < |ids| ensures Resolve(table', ids)[k] == Resolve(table, ids)[k] {
      assert table'[ids[k]] == table[ids[k]];
    }
  }

  // Growing a store leaves what it already holds alone

  ghost predicate ListsExtend(a: IdLists, b: IdLists) {
    a.offsets <= b.offsets && a.ids <= b.ids && a.table <= b.table
  }

  lemma ListStable(a: IdLists, b: IdLists, n: nat, m: nat, i: nat)
    requires a.Valid(n) && b.Valid(m) && ListsExtend(a, b) && i < n
    ensures b.Get(i) == a.Get(i)
  {
    var ids := a.ids[a.offsets[i]..a.offsets[i + 1]];
    assert b.offsets[i] == a.offsets[i] && b.offsets[i + 1] == a.offsets[i + 1];
    assert b.ids[b.offsets[i]..b.offsets[i + 1]] == ids;
    ResolveGrows(a.table, b.table, ids);
  }

  ghost predicate Extends(s: LexiconStore, t: LexiconStore) {
    && s.text <= t.text && s.word <= t.word && s.normalized <= t.normalized && s.lemmaForm <= t.lemmaForm
    && s.frequency <= t.frequency && s.metadata <= t.metadata
    && s.status <= t.status && s.partOfSpeech <= t.partOfSpeech
    && s.statusTable <= t.statusTable && s.partOfSpeechTable <= t.partOfSpeechTable
    && ListsExtend(s.regions, t.regions) && ListsExtend(s.sources, t.sources)
  }

  lemma TextStable(codec: Codec, s: LexiconStore, t: LexiconStore, span: Span)
    requires s.text <= t.text && s.SpanValid(codec, span)
    ensures t.SpanValid(codec, span) && t.Text(codec, span) == s.Text(codec, span)
  {
    assert t.text[span.start..span.start + span.len] == s.text[span.start..span.start + span.len];
  }

  lemma EntryStable(codec: Codec, s: LexiconStore, t: LexiconStore, i: nat)
    requires s.Valid(codec) && t.Valid(codec) && Extends(s, t) && i < s.Len()
    ensures t.Entry(codec, i) == s.Entry(codec, i)
  {
    assert t.word[i] == s.word[i] && t.normalized[i] == s.normalized[i] && t.lemmaForm[i] == s.lemmaForm[i];
    TextStable(codec, s, t, s.word[i]);
    TextStable(codec, s, t, s.normalized[i]);
    TextStable(codec, s, t, s.lemmaForm[i]);
    ListStable(s.regions, t.regions, s.Len(), t.Len(), i);
    ListStable(s.sources, t.sources, s.Len(), t.Len(), i);
    assert t.status[i] == s.status[i] && t.statusTable[s.status[i]] == s.statusTable[s.status[i]];
    assert t.partOfSpeech[i] == s.partOfSpeech[i];
    assert t.partOfSpeechTable[s.partOfSpeech[i]] == s.partOfSpeechTable[s.partOfSpeech[i]];
  }

  lemma EntriesAppended(codec: Codec, s: LexiconStore, t: LexiconStore, e: LexiconEntry)
    requires s.Valid(codec) && t.Valid(codec) && Extends(s, t) && t.Len() == s.Len() + 1
    requires t.Entry(codec, s.Len()) == e
    ensures t.Entries(codec) == s.Entries(codec) + [e]
  {
    hide LexiconStore.Valid;
    hide LexiconStore.Entry;
    hide Extends;
    forall i | 0 <= i < t.Len() ensures t.Entries(codec)[i] == (s.Entries(codec) + [e])[i] {
      if i < s.Len() {
        EntryStable(codec, s, t, i);
      }
    }
  }

  /** The store with one more record: text and tables have already been extended. */
  function Recorded(s: LexiconStore, spans: (Span, Span, Span), statusId: u32, posId: u32, e: LexiconEntry)
    : LexiconStore
  {
    s.(word := s.word + [spans.0], normalized := s.normalized + [spans.1], lemmaForm := s.lemmaForm + [spans.2],
       frequency := s.frequency + [e.frequency], metadata := s.metadata + [e.metadata],
       status := s.status + [statusId], partOfSpeech := s.partOfSpeech + [posId])
  }

  /** `mid` is `s` with longer text and tables, and with the lists of one more entry. */
  ghost predicate Prepared(codec: Codec, s: LexiconStore, mid: LexiconStore, e: LexiconEntry, spans: (Span, Span, Span),
                           statusId: u32, posId: u32)
  {
    && s.Valid(codec) && Extends(s, mid)
    && mid.word == s.word && mid.normalized == s.normalized && mid.lemmaForm == s.lemmaForm
    && mid.frequency == s.frequency && mid.metadata == s.metadata
    && mid.status == s.status && mid.partOfSpeech == s.partOfSpeech
    && |mid.text| <= U32_MAX
    && |mid.statusTable| <= |s.statusTable| + 1 && |mid.partOfSpeechTable| <= |s.partOfSpeechTable| + 1
    && mid.SpanValid(codec, spans.0) && mid.Text(codec, spans.0) == e.word
    && mid.SpanValid(codec, spans.1) && mid.Text(codec, spans.1) == e.normalized
    && mid.SpanValid(codec, spans.2) && mid.Text(codec, spans.2) == e.lemmaForm
    && statusId < |mid.statusTable| && mid.statusTable[statusId] == e.status
    && posId < |mid.partOfSpeechTable| && mid.partOfSpeechTable[posId] == e.partOfSpeech
    && mid.regions.Valid(s.Len() + 1) && mid.regions.Get(s.Len()) == e.regions
    && mid.sources.Valid(s.Len() + 1) && mid.sources.Get(s.Len()) == e.sources
  }

  lemma RecordedSpans(codec: Codec, s: LexiconStore, mid: LexiconStore, spans: seq<Span>, span: Span)
    requires s.text <= mid.text && mid.SpanValid(codec, span)
    requires forall i | 0 <= i < |spans| :: s.SpanValid(codec, spans[i])
    ensures forall i | 0 <= i < |spans| + 1 :: mid.SpanValid(codec, (spans + [span])[i])
  {
    forall i | 0 <= i < |spans| ensures mid.SpanValid(codec, spans[i]) {
      TextStable(codec, s, mid, spans[i]);
    }
  }

  lemma RecordedIsValid(codec: Codec, s: LexiconStore, mid: LexiconStore, e: LexiconEntry, spans: (Span, Span, Span),
                        statusId: u32, posId: u32)
    requires Prepared(codec, s, mid, e, spans, statusId, posId)
    ensures
      var t := Recorded(mid, spans, statusId, posId, e);
      t.Valid(codec) && Extends(s, t) && t.Len() == s.Len() + 1 && t.Entry(codec, s.Len()) == e
  {
    var t := Recorded(mid, spans, statusId, posId, e);
    RecordedSpans(codec, s, mid, s.word, spans.0);
    RecordedSpans(codec, s, mid, s.normalized, spans.1);
    RecordedSpans(codec, s, mid, s.lemmaForm, spans.2);
    forall span: Span ensures t.SpanValid(codec, span) <==> mid.SpanValid(codec, span) {
    }
  }

  lemma RecordedAppends(codec: Codec, s: LexiconStore, mid: LexiconStore, e: LexiconEntry, spans: (Span, Span, Span),
                        statusId: u32, posId: u32)
    requires Prepared(codec, s, mid, e, spans, statusId, posId)
    ensures
      var t := Recorded(mid, spans, statusId, posId, e);
      t.Valid(codec) && t.Entries(codec) == s.Entries(codec) + [e]
  {
    hide LexiconStore.Valid;
    hide LexiconStore.Entry;
    hide Extends;
    hide Recorded;
    RecordedIsValid(codec, s, mid, e, spans, statusId, posId);
    EntriesAppended(codec, s, Recorded(mid, spans, statusId, posId, e), e);
  }

  // Building

  /** The arena bytes of an entry: a form equal to another one of the entry is stored once. */
  function TextBytes(codec: Codec, e: LexiconEntry): nat {
    |codec.encode(e.word)|
    + (if e.normalized == e.word then 0 else |codec.encode(e.normalized)|)
    + (if e.lemmaForm == e.word || e.lemmaForm == e.normalized then 0 else |codec.encode(e.lemmaForm)|)
  }

  /** The quantities that the store keeps in 32 bits, summed over entries. */
  datatype Usage = Usage(text: nat, regions: nat, sources: nat) {
    function Add(codec: Codec, e: LexiconEntry): Usage {
      Usage(text + TextBytes(codec, e), regions + |e.regions|, sources + |e.sources|)
    }

    predicate Fits() {
      text <= U32_MAX && regions <= U32_MAX && sources <= U32_MAX
    }
  }

  function UsageFrom(codec: Codec, usage: Usage, entries: seq<LexiconEntry>): Usage
    decreases |entries|
  {
    if entries == [] then usage else UsageFrom(codec, usage.Add(codec, entries[0]), entries[1..])
  }

  lemma {:induction false} UsageGrows(codec: Codec, usage: Usage, entries: seq<LexiconEntry>)
    requires UsageFrom(codec, usage, entries).Fits()
    ensures usage.Fits()
    decreases |entries|
  {
    if entries != [] {
      UsageGrows(codec, usage.Add(codec, entries[0]), entries[1..]);
    }
  }

  lemma {:induction false} UsageAppend(codec: Codec, usage: Usage, a: seq<LexiconEntry>, b: seq<LexiconEntry>)
    ensures UsageFrom(codec, usage, a + b) == UsageFrom(codec, UsageFrom(codec, usage, a), b)
    decreases |a|
  {
    if a == [] {
      assert a + b == b;
    } else {
      assert (a + b)[1..] == a[1..] + b;
      UsageAppend(codec, usage.Add(codec, a[0]), a[1..], b);
    }
  }

  lemma UsageOne(codec: Codec, usage: Usage, e: LexiconEntry)
    ensures UsageFrom(codec, usage, [e]) == usage.Add(codec, e)
  {
    assert [e][1..] == [];
  }

  const NO_USAGE := Usage(0, 0, 0)

  class LexiconStoreBuilder {
    const codec: Codec
    var store: LexiconStore
    var statusIds: map<Str, u32>
    var partOfSpeechIds: map<Str, u32>
    var regionIds: map<Str, u32>
    var sourceIds: map<Str, u32>

    ghost predicate Valid()
      reads this
    {
      && codec.Lawful() && store.Valid(codec)
      && InternValid(store.statusTable, statusIds)
      && InternValid(store.partOfSpeechTable, partOfSpeechIds)
      && InternValid(store.regions.table, regionIds)
      && InternValid(store.sources.table, sourceIds)
    }

    function Entries(): seq<LexiconEntry>
      reads this
      requires Valid()
    {
      store.Entries(codec)
    }

    /** What the 32-bit quantities currently are. */
    function CurrentUsage(): Usage
      reads this
    {
      Usage(|store.text|, |store.regions.ids|, |store.sources.ids|)
    }

    constructor (codec: Codec)
      requires codec.Lawful()
      ensures this.codec == codec && Valid() && Entries() == [] && CurrentUsage() == NO_USAGE
    {
      this.codec := codec;
      store := EMPTY_STORE;
      statusIds, partOfSpeechIds, regionIds, sourceIds := map[], map[], map[], map[];
    }

    /** Appends `value` to the arena, after checking its span. */
    method PushText(value: Str) returns (span: Option<Span>)
      requires codec.Lawful()
      modifies this`store
      ensures span.None? <==> |old(store).text| + |codec.encode(value)| > U32_MAX
      ensures span.None? ==> store == old(store)
      ensures span.Some? ==>
                && store == old(store).(text := old(store).text + codec.encode(value))
                && span.value == Span(|old(store).text|, |codec.encode(value)|)
                && store.SpanValid(codec, span.value) && store.Text(codec, span.value) == value
    {
      var bytes := codec.encode(value);
      var start, len := |store.text|, |bytes|;
      if start > U32_MAX || len > U32_MAX || start + len > U32_MAX {
        return None;
      }
      store := store.(text := store.text + bytes);
      assert store.text[start..start + len] == bytes;
      return Some(Span(start, len));
    }

    /** The three forms of an entry; equal forms share a span. */
    method PushTexts(e: LexiconEntry) returns (spans: Option<(Span, Span, Span)>)
      requires codec.Lawful() && |store.text| <= U32_MAX
      modifies this`store
      ensures spans.None? <==> |old(store).text| + TextBytes(codec, e) > U32_MAX
      ensures old(store).text <= store.text && store == old(store).(text := store.text)
      ensures spans.Some? ==>
                && |store.text| == |old(store).text| + TextBytes(codec, e)
                && store.SpanValid(codec, spans.value.0) && store.Text(codec, spans.value.0) == e.word
                && store.SpanValid(codec, spans.value.1) && store.Text(codec, spans.value.1) == e.normalized
                && store.SpanValid(codec, spans.value.2) && store.Text(codec, spans.value.2) == e.lemmaForm
    {
      hide LexiconStore.Text;
      hide LexiconStore.SpanValid;
      var word := PushText(e.word);
      if word.None? {
        return None;
      }
      ghost var s1 := store;
      var normalized := word;
      if e.normalized != e.word {
        normalized := PushText(e.normalized);
        if normalized.None? {
          return None;
        }
      }
      ghost var s2 := store;
      TextStable(codec, s1, s2, word.value);
      var lemmaForm := if e.lemmaForm == e.word then word else normalized;
      if e.lemmaForm != e.word && e.lemmaForm != e.normalized {
        lemmaForm := PushText(e.lemmaForm);
        if lemmaForm.None? {
          return None;
        }
      }
      TextStable(codec, s2, store, word.value);
      TextStable(codec, s2, store, normalized.value);
      return Some((word.value, normalized.value, lemmaForm.value));
    }

    /** The interned ids of status and part of speech. */
    method PushCategories(e: LexiconEntry) returns (ids: Option<(u32, u32)>)
      requires InternValid(store.statusTable, statusIds)
      requires InternValid(store.partOfSpeechTable, partOfSpeechIds)
      modifies this`store, this`statusIds, this`partOfSpeechIds
      ensures ids.Some? <==> InternFits(old(store).statusTable, e.status)
                             && InternFits(old(store).partOfSpeechTable, e.partOfSpeech)
      ensures ids.Some? ==>
                && store == old(store).(statusTable := store.statusTable, partOfSpeechTable := store.partOfSpeechTable)
                && InternValid(store.statusTable, statusIds) && InternValid(store.partOfSpeechTable, partOfSpeechIds)
                && old(store).statusTable <= store.statusTable
                && |store.statusTable| <= |old(store).statusTable| + 1
                && old(store).partOfSpeechTable <= store.partOfSpeechTable
                && |store.partOfSpeechTable| <= |old(store).partOfSpeechTable| + 1
                && ids.value.0 < |store.statusTable| && store.statusTable[ids.value.0] == e.status
                && ids.value.1 < |store.partOfSpeechTable| && store.partOfSpeechTable[ids.value.1] == e.partOfSpeech
    {
      hide InternValid;
      var statusId, statusTable;
      statusId, statusTable, statusIds := Intern(store.statusTable, statusIds, e.status);
      if statusId.None? {
        return None;
      }
      store := store.(statusTable := statusTable);
      var partOfSpeechId, partOfSpeechTable;
      partOfSpeechId, partOfSpeechTable, partOfSpeechIds :=
        Intern(store.partOfSpeechTable, partOfSpeechIds, e.partOfSpeech);
      if partOfSpeechId.None? {
        return None;
      }
      store := store.(partOfSpeechTable := partOfSpeechTable);
      return Some((statusId.value, partOfSpeechId.value));
    }

    /** The id lists of regions and sources. */
    method PushLists(e: LexiconEntry, n: nat) returns (ok: bool)
      requires store.regions.Valid(n) && store.sources.Valid(n)
      requires InternValid(store.regions.table, regionIds) && InternValid(store.sources.table, sourceIds)
      modifies this`store, this`regionIds, this`sourceIds
      ensures ok <==> |old(store).regions.ids| + |e.regions| <= U32_MAX
                      && |old(store).sources.ids| + |e.sources| <= U32_MAX
      ensures ok ==>
                && store == old(store).(regions := store.regions, sources := store.sources)
                && InternValid(store.regions.table, regionIds) && InternValid(store.sources.table, sourceIds)
                && ListsExtend(old(store).regions, store.regions) && ListsExtend(old(store).sources, store.sources)
                && store.regions.Valid(n + 1) && store.regions.Get(n) == e.regions
                && store.sources.Valid(n + 1) && store.sources.Get(n) == e.sources
                && |store.regions.ids| == |old(store).regions.ids| + |e.regions|
                && |store.sources.ids| == |old(store).sources.ids| + |e.sources|
    {
      hide InternValid;
      var regions, sources;
      ok, regions, regionIds := InternAll(store.regions, regionIds, e.regions, n);
      if !ok {
        return;
      }
      store := store.(regions := regions);
      ok, sources, sourceIds := InternAll(store.sources, sourceIds, e.sources, n);
      if !ok {
        return;
      }
      store := store.(sources := sources);
    }

    /** Appends one entry: succeeds exactly when every 32-bit quantity still fits; the category
        ids always do in a store of fewer than 2^32 entries. On failure the builder is to be
        discarded. */
    method Push(e: LexiconEntry) returns (ok: bool)
      requires Valid()
      modifies this
      ensures ok <==> old(CurrentUsage()).Add(codec, e).Fits()
                      && InternFits(old(store).statusTable, e.status)
                      && InternFits(old(store).partOfSpeechTable, e.partOfSpeech)
      ensures old(store).Len() <= U32_MAX ==> (ok <==> old(CurrentUsage()).Add(codec, e).Fits())
      ensures ok ==> Valid() && Entries() == old(Entries()) + [e]
      ensures ok ==> CurrentUsage() == old(CurrentUsage()).Add(codec, e)
    {
      hide InternValid;
      hide TextBytes;
      hide LexiconStore.SpanValid;
      hide LexiconStore.Text;
      hide LexiconStore.Entries;
      ghost var s := store;
      var spans := PushTexts(e);
      if spans.None? {
        return false;
      }
      ghost var texts := store;
      var ids := PushCategories(e);
      if ids.None? {
        return false;
      }
      ok := PushLists(e, |store.word|);
      if !ok {
        return;
      }
      ghost var mid := store;
      TextStable(codec, texts, mid, spans.value.0);
      TextStable(codec, texts, mid, spans.value.1);
      TextStable(codec, texts, mid, spans.value.2);
      store := Recorded(store, spans.value, ids.value.0, ids.value.1, e);
      assert Prepared(codec, s, mid, e, spans.value, ids.value.0, ids.value.1);
      RecordedAppends(codec, s, mid, e, spans.value, ids.value.0, ids.value.1);
    }

    /** Releases spare capacity and hands the store over. */
    method Finish() returns (lexicon: LexiconStore)
      requires Valid()
      ensures lexicon.Valid(codec) && lexicon.Entries(codec) == Entries()
    {
      return store;
    }
  }
}
