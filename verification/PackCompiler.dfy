/** The pack compiler: one pass over the entries and one over each record list, appending to a
    single payload buffer. */
module PackCompiler {
  import opened Wrappers
  import opened Orders
  import opened Lexicon
  import opened PackFormat
  import opened CompiledPack
  import opened CompiledSections
  import opened CompileRoundTrip

  datatype CompileError =
    | FieldTooLong
    | ListTooLong
    | TooManyEntries
    | ZeroContextCount
    | ZeroCount
    | CountExceedsContext
    | ProbabilityTooLarge
    | DuplicateRecord
    | TooManyContexts
    | TooManyPredictions
    | PayloadTooLong

  datatype CompileStats = CompileStats(frequencyEntryCount: nat, bigramCount: nat, trigramCount: nat)

  // Entries

  method WriteString(c: Codec, payload0: seq<byte>, s: Str) returns (r: Result<seq<byte>, CompileError>)
    ensures r == if StrFits(c, s) then Ok(payload0 + EncodeStr(c, s)) else Err(FieldTooLong)
  {
    var bytes := c.encode(s);
    if |bytes| > U16_MAX {
      return Err(FieldTooLong);
    }
    Associate(payload0, LE(|bytes|, 2), bytes);
    return Ok((payload0 + LE(|bytes|, 2)) + bytes);
  }

  /** A list, sorted and deduplicated. */
  method WriteList(c: Codec, payload0: seq<byte>, ss: seq<Str>) returns (r: Result<seq<byte>, CompileError>)
    ensures r.Ok? <==> StrsFit(c, Canonical(ss))
    ensures r.Ok? ==> r.value == payload0 + EncodeList(c, Canonical(ss))
    ensures r.Err? ==> r.error.FieldTooLong? || r.error.ListTooLong?
  {
    hide StrFits;
    hide EncodeStr;
    var list := SortBy(StrLeq, ss);
    list := Dedup(list);
    if |list| > U16_MAX {
      return Err(ListTooLong);
    }
    var payload := payload0 + LE(|list|, 2);
    ghost var start := payload;
    for i := 0 to |list|
      invariant payload == start + EncodeStrs(c, list[..i])
      invariant forall j | 0 <= j < i :: StrFits(c, list[j])
    {
      var next := WriteString(c, payload, list[i]);
      if next.Err? {
        return next;
      }
      EncodeStrsAppend(c, list[..i], list[i]);
      Associate(start, EncodeStrs(c, list[..i]), EncodeStr(c, list[i]));
      assert list[..i + 1] == list[..i] + [list[i]];
      payload := next.value;
    }
    assert list[..|list|] == list;
    Associate(payload0, LE(|list|, 2), EncodeStrs(c, list));
    return Ok(payload);
  }

  lemma FieldsAppend(p: seq<byte>, a: seq<byte>, b: seq<byte>, c: seq<byte>, d: seq<byte>, e: seq<byte>, f: seq<byte>)
    ensures (((((p + a) + b) + c) + d) + e) + f == p + (a + (b + (c + (d + (e + f)))))
  {
    Associate((((p + a) + b) + c) + d, e, f);
    Associate(((p + a) + b) + c, d, e + f);
    Associate((p + a) + b, c, d + (e + f));
    Associate(p + a, b, c + (d + (e + f)));
    Associate(p, a, b + (c + (d + (e + f))));
  }

  /** Word, lemma, normalized form and part of speech. */
  method WriteForms(c: Codec, payload0: seq<byte>, e: SourceEntry) returns (r: Result<seq<byte>, CompileError>)
    ensures r.Ok? <==>
              StrFits(c, e.word) && StrFits(c, e.lemmaForm) && StrFits(c, e.normalized) && StrFits(c, e.partOfSpeech)
    ensures r.Ok? ==> r.value == payload0 + EncodeStrs(c, [e.word, e.lemmaForm, e.normalized, e.partOfSpeech])
    ensures r.Err? ==> r.error.FieldTooLong?
  {
    hide StrFits;
    hide EncodeStr;
    r := WriteString(c, payload0, e.word);
    if r.Ok? {
      r := WriteString(c, r.value, e.lemmaForm);
    }
    if r.Ok? {
      r := WriteString(c, r.value, e.normalized);
    }
    if r.Ok? {
      r := WriteString(c, r.value, e.partOfSpeech);
    }
    FormsAppend(c, payload0, e.word, e.lemmaForm, e.normalized, e.partOfSpeech);
  }

  lemma FormsAppend(c: Codec, p: seq<byte>, w: Str, x: Str, y: Str, z: Str)
    ensures (((p + EncodeStr(c, w)) + EncodeStr(c, x)) + EncodeStr(c, y)) + EncodeStr(c, z)
            == p + EncodeStrs(c, [w, x, y, z])
  {
    hide EncodeStr;
    EncodeFourStrs(c, w, x, y, z, []);
    var a, b, d, e := EncodeStr(c, w), EncodeStr(c, x), EncodeStr(c, y), EncodeStr(c, z);
    assert e + [] == e && EncodeStrs(c, [w, x, y, z]) + [] == EncodeStrs(c, [w, x, y, z]);
    Associate((p + a) + b, d, e);
    Associate(p + a, b, d + e);
    Associate(p, a, b + (d + e));
  }

  method WriteEntry(c: Codec, payload0: seq<byte>, e: SourceEntry, includeFrequencies: bool)
    returns (r: Result<seq<byte>, CompileError>)
    ensures r.Ok? <==> EntryFits(c, PackEntry(e, includeFrequencies))
    ensures r.Ok? ==> r.value == payload0 + EncodeEntry(c, PackEntry(e, includeFrequencies))
    ensures r.Err? ==> r.error.FieldTooLong? || r.error.ListTooLong?
  {
    hide StrFits;
    hide StrsFit;
    hide EncodeStr;
    hide EncodeStrs;
    hide EncodeList;
    hide EncodeMetadata;
    hide Canonical;
    hide LE;
    var metadata := if includeFrequencies && e.metadata.Some? then e.metadata.value else NO_FREQUENCY;
    var frequency := if includeFrequencies then e.frequency else 0;
    r := WriteForms(c, payload0, e);
    if r.Ok? {
      r := WriteString(c, r.value + LE(frequency, 8), e.status);
    }
    if r.Ok? {
      r := WriteList(c, r.value, e.regions);
    }
    if r.Ok? {
      r := WriteList(c, r.value, e.sources);
    }
    if r.Ok? {
      r := Ok(r.value + EncodeMetadata(metadata));
    }
    FieldsAppend(payload0, EncodeStrs(c, [e.word, e.lemmaForm, e.normalized, e.partOfSpeech]), LE(frequency, 8),
                 EncodeStr(c, e.status), EncodeList(c, Canonical(e.regions)), EncodeList(c, Canonical(e.sources)),
                 EncodeMetadata(metadata));
  }

  predicate CarriesFrequency(e: LexiconEntry) {
    e.metadata.zipfMilli > 0 || e.metadata.tokenCount > 0 || e.frequency > 0
  }

  /** How many entries carry frequency data in the pack. */
  function FrequencyEntries(es: seq<LexiconEntry>): nat {
    if es == [] then 0 else FrequencyEntries(Init(es)) + if CarriesFrequency(Last(es)) then 1 else 0
  }

  /** The entry's data would count. */
  predicate HasFrequency(e: SourceEntry) {
    var metadata := if e.metadata.Some? then e.metadata.value else NO_FREQUENCY;
    metadata.zipfMilli > 0 || metadata.tokenCount > 0 || e.frequency > 0
  }

  lemma FrequencyIsCarried(e: SourceEntry, includeFrequencies: bool)
    ensures CarriesFrequency(PackEntry(e, includeFrequencies)) <==> includeFrequencies && HasFrequency(e)
  {
  }

  method WriteEntries(c: Codec, es: seq<SourceEntry>, includeFrequencies: bool)
    returns (r: Result<seq<byte>, CompileError>, index: map<Str, nat>, frequencyEntryCount: nat)
    ensures r.Ok? ==> |es| <= 0x1_0000_0000
    ensures r.Ok? ==> forall i | 0 <= i < |es| :: EntryFits(c, PackEntry(es[i], includeFrequencies))
    ensures r.Ok? ==> r.value == EncodeEntries(c, PackEntries(es, includeFrequencies))
    ensures r.Ok? ==> index == LexiconIndex(SourceForms(es))
    ensures r.Ok? ==> frequencyEntryCount == FrequencyEntries(PackEntries(es, includeFrequencies))
    ensures r.Err? ==> EntriesFault(c, es, includeFrequencies, r.error)
  {
    hide EntryFits;
    hide EncodeEntry;
    hide EncodeEntries;
    hide PackEntry;
    hide PackEntries;
    hide SourceForms;
    hide LexiconIndex;
    hide FrequencyEntries;
    hide CarriesFrequency;
    hide HasFrequency;
    var payload: seq<byte> := [];
    index, frequencyEntryCount := map[], 0;
    NoEntries(c, es, includeFrequencies);
    for i := 0 to |es|
      invariant i <= 0x1_0000_0000
      invariant forall j | 0 <= j < i :: EntryFits(c, PackEntry(es[j], includeFrequencies))
      invariant payload == EncodeEntries(c, PackEntries(es[..i], includeFrequencies))
      invariant index == LexiconIndex(SourceForms(es[..i]))
      invariant frequencyEntryCount == FrequencyEntries(PackEntries(es[..i], includeFrequencies))
    {
      if i > U32_MAX {
        return Err(TooManyEntries), index, frequencyEntryCount;
      }
      var e := es[i];
      index := index[e.normalized := i];
      r := WriteEntry(c, payload, e, includeFrequencies);
      if r.Err? {
        return;
      }
      payload := r.value;
      FrequencyIsCarried(e, includeFrequencies);
      if includeFrequencies && HasFrequency(e) {
        frequencyEntryCount := frequencyEntryCount + 1;
      }
      OneMoreEntry(c, es, includeFrequencies, i);
    }
    assert es[..|es|] == es;
    r := Ok(payload);
  }

  lemma NoEntries(c: Codec, es: seq<SourceEntry>, includeFrequencies: bool)
    ensures EncodeEntries(c, PackEntries(es[..0], includeFrequencies)) == []
    ensures LexiconIndex(SourceForms(es[..0])) == map[]
    ensures FrequencyEntries(PackEntries(es[..0], includeFrequencies)) == 0
  {
    assert es[..0] == [];
  }

  lemma OneMoreEntry(c: Codec, es: seq<SourceEntry>, includeFrequencies: bool, i: nat)
    requires i < |es|
    ensures
      var before, after := PackEntries(es[..i], includeFrequencies), PackEntries(es[..i + 1], includeFrequencies);
      var e := PackEntry(es[i], includeFrequencies);
      && EncodeEntries(c, after) == EncodeEntries(c, before) + EncodeEntry(c, e)
      && FrequencyEntries(after)
         == FrequencyEntries(before)
            + (if CarriesFrequency(e) then 1 else 0)
    ensures LexiconIndex(SourceForms(es[..i + 1])) == LexiconIndex(SourceForms(es[..i]))[es[i].normalized := i]
  {
    hide EncodeEntries;
    hide EncodeEntry;
    hide PackEntry;
    var before, after := PackEntries(es[..i], includeFrequencies), PackEntries(es[..i + 1], includeFrequencies);
    var e := PackEntry(es[i], includeFrequencies);
    assert after == before + [e] && Init(after) == before;
    EncodeEntriesAppend(c, before, e);
    assert Init(SourceForms(es[..i + 1])) == SourceForms(es[..i]);
  }

  /** The error is about the entries. */
  ghost predicate EntriesFault(c: Codec, es: seq<SourceEntry>, includeFrequencies: bool, e: CompileError) {
    match e
    case FieldTooLong => exists i :: 0 <= i < |es| && !EntryFits(c, PackEntry(es[i], includeFrequencies))
    case ListTooLong => exists i :: 0 <= i < |es| && !EntryFits(c, PackEntry(es[i], includeFrequencies))
    case TooManyEntries => |es| > U32_MAX
    case _ => false
  }

  // Records

  /** The error is about some record. */
  ghost predicate RecordsFault(rs: seq<NgramRecord>, e: CompileError) {
    match e
    case ZeroContextCount => exists i :: 0 <= i < |rs| && rs[i].contextCount == 0
    case ZeroCount => exists i :: 0 <= i < |rs| && rs[i].count == 0
    case CountExceedsContext => exists i :: 0 <= i < |rs| && rs[i].count > rs[i].contextCount
    case ProbabilityTooLarge => exists i :: 0 <= i < |rs| && rs[i].probability > PROBABILITY_SCALE
    case DuplicateRecord =>
      exists i, j :: 0 <= i < j < |rs| && rs[i].context == rs[j].context && rs[i].next == rs[j].next
    case _ => false
  }

  /** The error is about the records or their groups. */
  ghost predicate SectionFault(index: map<Str, nat>, rs: seq<NgramRecord>, max: nat, e: CompileError) {
    || RecordsFault(rs, e)
    || (e == TooManyContexts && |SectionKeys(index, rs)| > U32_MAX)
    || (e == TooManyPredictions && exists key :: key in SectionKeys(index, rs) && |Group(index, rs, key)| > max)
  }

  lemma FaultRefuses(index: map<Str, nat>, rs: seq<NgramRecord>, max: nat, e: CompileError)
    requires SectionFault(index, rs, max, e)
    ensures !SectionCompiles(index, rs, max)
  {
    hide SectionKeys;
    hide Group;
  }

  type Groups = map<seq<nat>, seq<NgramRecord>>

  ghost predicate Grouped(index: map<Str, nat>, rs: seq<NgramRecord>, groups: Groups) {
    && (forall key :: key in groups <==> key in Keys(index, rs))
    && (forall key | key in groups :: groups[key] == Group(index, rs, key))
  }

  /** One more record goes to the end of its group. */
  lemma GroupedStep(index: map<Str, nat>, rs: seq<NgramRecord>, r: NgramRecord, groups: Groups)
    requires Grouped(index, rs, groups)
    ensures
      if InLexicon(index, r) then
        var key := KeyOf(index, r.context);
        Grouped(index, rs + [r], groups[key := (if key in groups then groups[key] else []) + [r]])
      else Grouped(index, rs + [r], groups)
  {
    assert Init(rs + [r]) == rs;
    if InLexicon(index, r) {
      var key := KeyOf(index, r.context);
      if key !in groups {
        NoKeyNoGroup(index, rs, key);
      }
    }
  }

  lemma {:induction false} NoKeyNoGroup(index: map<Str, nat>, rs: seq<NgramRecord>, key: seq<nat>)
    requires key !in Keys(index, rs)
    ensures Group(index, rs, key) == []
  {
    if rs != [] {
      NoKeyNoGroup(index, Init(rs), key);
    }
  }

  method CheckRecord(r: NgramRecord) returns (error: Option<CompileError>)
    ensures error.None? <==> RecordValid(r)
    ensures error.Some? ==> RecordsFault([r], error.value)
  {
    assert [r][0] == r;
    if r.contextCount == 0 {
      return Some(ZeroContextCount);
    }
    if r.count == 0 {
      return Some(ZeroCount);
    }
    if r.count > r.contextCount {
      return Some(CountExceedsContext);
    }
    if r.probability > PROBABILITY_SCALE {
      return Some(ProbabilityTooLarge);
    }
    return None;
  }

  lemma OneRecordFaults(rs: seq<NgramRecord>, i: nat, e: CompileError)
    requires i < |rs| && RecordsFault([rs[i]], e)
    ensures RecordsFault(rs, e)
  {
    assert [rs[i]][0] == rs[i];
  }

  method GroupRecords(index: map<Str, nat>, rs: seq<NgramRecord>) returns (r: Result<Groups, CompileError>)
    ensures r.Ok? ==> RecordsValid(rs) && Grouped(index, rs, r.value)
    ensures r.Err? ==> RecordsFault(rs, r.error)
  {
    hide Grouped;
    hide RecordValid;
    hide InLexicon;
    var groups: Groups := map[];
    var seen: set<(seq<Str>, Str)> := {};
    NothingGrouped(index);
    for i := 0 to |rs|
      invariant forall j | 0 <= j < i :: RecordValid(rs[j])
      invariant forall p :: p in seen <==> exists j :: 0 <= j < i && p == (rs[j].context, rs[j].next)
      invariant forall j, k | 0 <= j < k < i :: rs[j].context != rs[k].context || rs[j].next != rs[k].next
      invariant Grouped(index, rs[..i], groups)
    {
      var rec := rs[i];
      var error := CheckRecord(rec);
      if error.Some? {
        OneRecordFaults(rs, i, error.value);
        return Err(error.value);
      }
      if (rec.context, rec.next) in seen {
        return Err(DuplicateRecord);
      }
      seen := seen + {(rec.context, rec.next)};
      GroupedStep(index, rs[..i], rec, groups);
      assert rs[..i + 1] == rs[..i] + [rec];
      if InLexicon(index, rec) {
        groups := PushRecord(index, groups, rec);
      }
    }
    assert rs[..|rs|] == rs;
    return Ok(groups);
  }

  /** `entry(key).or_default().push(record)`. */
  function PushRecord(index: map<Str, nat>, groups: Groups, r: NgramRecord): Groups
    requires InLexicon(index, r)
  {
    var key := KeyOf(index, r.context);
    groups[key := (if key in groups then groups[key] else []) + [r]]
  }

  lemma NothingGrouped(index: map<Str, nat>)
    ensures forall rs: seq<NgramRecord> :: Grouped(index, rs[..0], map[])
  {
    forall rs: seq<NgramRecord> ensures Grouped(index, rs[..0], map[]) {
      assert rs[..0] == [];
    }
  }

  // Sections

  method WritePredictions(index: map<Str, nat>, payload0: seq<byte>, group: seq<NgramRecord>, count0: nat)
    returns (payload: seq<byte>, count: nat)
    requires forall i | 0 <= i < |group| :: group[i].next in index
    ensures payload == payload0 + EncodePredictions(PredictionsOf(index, group))
    ensures count == count0 + |group|
  {
    hide EncodePrediction;
    payload, count := payload0, count0;
    var all := PredictionsOf(index, group);
    for i := 0 to |group|
      invariant payload == payload0 + EncodePredictions(all[..i]) && count == count0 + i
    {
      EncodePredictionsAppend(all[..i], all[i]);
      Associate(payload0, EncodePredictions(all[..i]), EncodePrediction(all[i]));
      assert all[..i + 1] == all[..i] + [all[i]];
      payload := payload + EncodePrediction(Prediction(index[group[i].next], group[i].count, group[i].probability));
      count := count + 1;
    }
    assert all[..|all|] == all;
  }

  /** The keys of a `BTreeMap`, in its iteration order. */
  method AscendingKeys(index: map<Str, nat>, rs: seq<NgramRecord>, groups: Groups, ghost k: nat)
    returns (keys: seq<seq<nat>>)
    requires KeysBelow(index, 0x1_0000_0000) && Arity(rs, k) && Grouped(index, rs, groups)
    ensures keys == SectionKeys(index, rs)
  {
    hide KeyLeq;
    hide Keys;
    hide Group;
    hide HasKey;
    var all := Enumerate(groups.Keys);
    keys := SortBy(KeyLeq, all);
    KeyLeqIsTotal();
    SortBySorts(KeyLeq, all);
    DistinctPermutation(all, keys);
    SectionKeysAscend(index, rs, k);
    KeysMembers(index, rs);
    SortedByElements(KeyLeq, SectionKeys(index, rs), keys);
  }

  method WriteContext(index: map<Str, nat>, payload0: seq<byte>, key: seq<nat>, group: seq<NgramRecord>, max: nat,
                      count0: nat)
    returns (r: Result<seq<byte>, CompileError>, count: nat)
    requires forall i | 0 <= i < |group| :: group[i].next in index
    ensures r.Ok? <==> |group| <= max
    ensures r.Ok? ==>
              r.value == payload0 + EncodeContext(Context(key, PredictionsOf(index, SortedRecords(index, group))))
    ensures r.Ok? ==> count == count0 + |group|
    ensures r.Err? ==> r.error == TooManyPredictions
  {
    hide EncodeKey;
    hide EncodePredictions;
    hide LE;
    count := count0;
    var predictions := SortedRecords(index, group);
    if |predictions| > max {
      return Err(TooManyPredictions), count;
    }
    var payload := (payload0 + EncodeKey(key)) + LE(|predictions|, 2);
    payload, count := WritePredictions(index, payload, predictions, count);
    ContextAppends(payload0, key, PredictionsOf(index, predictions));
    return Ok(payload), count;
  }

  lemma ContextAppends(p: seq<byte>, key: seq<nat>, ps: seq<Prediction>)
    ensures ((p + EncodeKey(key)) + LE(|ps|, 2)) + EncodePredictions(ps) == p + EncodeContext(Context(key, ps))
  {
    hide EncodeKey;
    hide EncodePredictions;
    hide LE;
    Associate(p + EncodeKey(key), LE(|ps|, 2), EncodePredictions(ps));
    Associate(p, EncodeKey(key), LE(|ps|, 2) + EncodePredictions(ps));
  }

  /** A group in its final order. */
  function SortedRecords(index: map<Str, nat>, group: seq<NgramRecord>): (r: seq<NgramRecord>)
    requires forall i | 0 <= i < |group| :: group[i].next in index
    ensures |r| == |group| && forall i | 0 <= i < |r| :: r[i].next in index
    ensures r == SortBy(RecordLeq, group)
  {
    RecordLeqIsTotal();
    SortBySorts(RecordLeq, group);
    assert forall i | 0 <= i < |group| :: SortBy(RecordLeq, group)[i] in SortBy(RecordLeq, group);
    SortBy(RecordLeq, group)
  }

  lemma WrittenGroup(index: map<Str, nat>, rs: seq<NgramRecord>, groups: Groups, key: seq<nat>)
    requires Grouped(index, rs, groups) && key in groups
    ensures forall i | 0 <= i < |groups[key]| :: groups[key][i].next in index
    ensures Context(key, PredictionsOf(index, SortedRecords(index, groups[key]))) == ContextOf(index, rs, key)
  {
    GroupMembers(index, rs, key);
    hide Group;
    hide Keys;
    var g := groups[key];
    forall i | 0 <= i < |g| ensures g[i].next in index {
      assert g[i] in g;
    }
  }

  method WriteSection(index: map<Str, nat>, rs: seq<NgramRecord>, groups: Groups, payload0: seq<byte>, max: nat,
                      ghost k: nat)
    returns (r: Result<seq<byte>, CompileError>, count: nat)
    requires KeysBelow(index, 0x1_0000_0000) && Arity(rs, k) && Grouped(index, rs, groups)
    ensures r.Ok? ==> |SectionKeys(index, rs)| <= U32_MAX
    ensures r.Ok? ==> forall key | key in SectionKeys(index, rs) :: |Group(index, rs, key)| <= max
    ensures r.Ok? ==> r.value == payload0 + EncodeSection(SectionOf(index, rs))
    ensures r.Ok? ==> count == PredictionCount(SectionOf(index, rs))
    ensures r.Err? ==> SectionFault(index, rs, max, r.error)
  {
    hide SectionKeys;
    hide Group;
    hide Grouped;
    hide ContextOf;
    hide EncodeContext;
    hide LE;
    count := 0;
    var keys := AscendingKeys(index, rs, groups, k);
    SectionKeysGrouped(index, rs, groups, k);
    if |keys| > U32_MAX {
      return Err(TooManyContexts), count;
    }
    ghost var contexts := SectionOf(index, rs);
    WrittenGroups(index, rs, groups, keys);
    r, count := WriteContexts(index, payload0 + LE(|keys|, 4), keys, groups, max, contexts);
    if r.Err? {
      var i :| 0 <= i < |keys| && |groups[keys[i]]| > max;
      assert keys[i] in keys;
    } else {
      Associate(payload0, LE(|keys|, 4), EncodeContexts(contexts));
    }
  }

  /** The group of a key, sorted and resolved, is the context. */
  ghost predicate Writes(index: map<Str, nat>, groups: Groups, key: seq<nat>, cx: Context) {
    && key in groups
    && (forall i | 0 <= i < |groups[key]| :: groups[key][i].next in index)
    && cx == Context(key, PredictionsOf(index, SortedRecords(index, groups[key])))
  }

  lemma WrittenGroups(index: map<Str, nat>, rs: seq<NgramRecord>, groups: Groups, keys: seq<seq<nat>>)
    requires Grouped(index, rs, groups) && forall i | 0 <= i < |keys| :: keys[i] in groups
    ensures forall i | 0 <= i < |keys| :: Writes(index, groups, keys[i], ContextOf(index, rs, keys[i]))
  {
    hide Grouped;
    hide ContextOf;
    forall i | 0 <= i < |keys| ensures Writes(index, groups, keys[i], ContextOf(index, rs, keys[i])) {
      WrittenGroup(index, rs, groups, keys[i]);
    }
  }

  lemma WritesGroup(index: map<Str, nat>, groups: Groups, key: seq<nat>, cx: Context)
    requires Writes(index, groups, key, cx)
    ensures key in groups && forall i | 0 <= i < |groups[key]| :: groups[key][i].next in index
    ensures cx == Context(key, PredictionsOf(index, SortedRecords(index, groups[key])))
    ensures |cx.predictions| == |groups[key]|
  {
  }

  lemma NoContexts(payload: seq<byte>, contexts: seq<Context>)
    ensures payload == payload + EncodeContexts(contexts[..0]) && PredictionCount(contexts[..0]) == 0
  {
    assert contexts[..0] == [];
  }

  method WriteContexts(index: map<Str, nat>, payload0: seq<byte>, keys: seq<seq<nat>>, groups: Groups, max: nat,
                       ghost contexts: seq<Context>)
    returns (r: Result<seq<byte>, CompileError>, count: nat)
    requires |keys| == |contexts| && forall i | 0 <= i < |keys| :: Writes(index, groups, keys[i], contexts[i])
    ensures r.Ok? ==> forall i | 0 <= i < |keys| :: keys[i] in groups && |groups[keys[i]]| <= max
    ensures r.Ok? ==> r.value == payload0 + EncodeContexts(contexts)
    ensures r.Ok? ==> count == PredictionCount(contexts)
    ensures r.Err? ==> r.error == TooManyPredictions
    ensures r.Err? ==> exists i :: 0 <= i < |keys| && keys[i] in groups && |groups[keys[i]]| > max
  {
    hide EncodeContext;
    hide EncodeContexts;
    hide PredictionCount;
    hide SortedRecords;
    hide Writes;
    var payload := payload0;
    count := 0;
    NoContexts(payload, contexts);
    for i := 0 to |keys|
      invariant payload == payload0 + EncodeContexts(contexts[..i])
      invariant count == PredictionCount(contexts[..i])
      invariant forall j | 0 <= j < i :: keys[j] in groups && |groups[keys[j]]| <= max
    {
      WritesGroup(index, groups, keys[i], contexts[i]);
      r, count := WriteContext(index, payload, keys[i], groups[keys[i]], max, count);
      if r.Err? {
        return;
      }
      OneMoreContext(payload0, contexts, i);
      payload := r.value;
    }
    assert contexts[..|keys|] == contexts;
    r := Ok(payload);
  }

  lemma OneMoreContext(start: seq<byte>, contexts: seq<Context>, i: nat)
    requires i < |contexts|
    ensures (start + EncodeContexts(contexts[..i])) + EncodeContext(contexts[i])
            == start + EncodeContexts(contexts[..i + 1])
    ensures PredictionCount(contexts[..i + 1]) == PredictionCount(contexts[..i]) + |contexts[i].predictions|
  {
    hide EncodeContexts;
    hide EncodeContext;
    EncodeContextsAppend(contexts[..i], contexts[i]);
    Associate(start, EncodeContexts(contexts[..i]), EncodeContext(contexts[i]));
    assert contexts[..i + 1] == contexts[..i] + [contexts[i]];
    assert Init(contexts[..i + 1]) == contexts[..i];
  }

  lemma SectionKeysGrouped(index: map<Str, nat>, rs: seq<NgramRecord>, groups: Groups, k: nat)
    requires KeysBelow(index, 0x1_0000_0000) && Arity(rs, k) && Grouped(index, rs, groups)
    ensures forall i | 0 <= i < |SectionKeys(index, rs)| :: SectionKeys(index, rs)[i] in groups
    ensures forall key | key in groups :: groups[key] == Group(index, rs, key)
  {
    hide HasKey;
    SectionKeysAscend(index, rs, k);
    KeysMembers(index, rs);
    hide SectionKeys;
    hide Keys;
    forall i | 0 <= i < |SectionKeys(index, rs)| ensures SectionKeys(index, rs)[i] in groups {
      assert SectionKeys(index, rs)[i] in SectionKeys(index, rs);
    }
  }

  /** One record list: checked, grouped, and appended to the payload as a section. */
  method CompileSection(index: map<Str, nat>, rs: seq<NgramRecord>, payload0: seq<byte>, max: nat, ghost k: nat)
    returns (r: Result<seq<byte>, CompileError>, count: nat)
    requires KeysBelow(index, 0x1_0000_0000) && Arity(rs, k)
    ensures r.Ok? ==> SectionCompiles(index, rs, max)
    ensures r.Ok? ==> r.value == payload0 + EncodeSection(SectionOf(index, rs))
    ensures r.Ok? ==> count == InLexiconCount(index, rs)
    ensures r.Err? ==> SectionFault(index, rs, max, r.error)
  {
    hide Grouped;
    hide SectionKeys;
    hide Group;
    hide RecordsFault;
    hide EncodeSection;
    hide SectionOf;
    count := 0;
    var groups := GroupRecords(index, rs);
    if groups.Err? {
      return Err(groups.error), count;
    }
    r, count := WriteSection(index, rs, groups.value, payload0, max, k);
    SectionKeepsEveryRecord(index, rs, k);
  }

  // The whole pack

  /** The error says what is wrong with the input. */
  ghost predicate CompileFault(c: Codec, es: seq<SourceEntry>, includeFrequencies: bool, bigrams: seq<NgramRecord>,
                               trigrams: seq<NgramRecord>, e: CompileError)
  {
    var index := LexiconIndex(SourceForms(es));
    || EntriesFault(c, es, includeFrequencies, e)
    || SectionFault(index, bigrams, MAX_BIGRAM_PREDICTIONS, e)
    || SectionFault(index, trigrams, MAX_TRIGRAM_PREDICTIONS, e)
    || (e == FieldTooLong && !StrFits(c, LANGUAGE_TAG))
    || (e == PayloadTooLong
        && |EncodePayload(c, PackOf(es, includeFrequencies, bigrams, trigrams))| >= 0x1_0000_0000_0000_0000)
  }

  lemma CompileFaultRefuses(c: Codec, es: seq<SourceEntry>, includeFrequencies: bool, bigrams: seq<NgramRecord>,
                            trigrams: seq<NgramRecord>, e: CompileError)
    requires CompileFault(c, es, includeFrequencies, bigrams, trigrams, e)
    ensures !Compilable(c, es, includeFrequencies, bigrams, trigrams)
  {
    hide SectionFault;
    hide SectionCompiles;
    hide EntryFits;
    hide EncodePayload;
    hide SectionOf;
    hide StrFits;
    hide PackEntry;
    var index := LexiconIndex(SourceForms(es));
    if SectionFault(index, bigrams, MAX_BIGRAM_PREDICTIONS, e) {
      FaultRefuses(index, bigrams, MAX_BIGRAM_PREDICTIONS, e);
    }
    if SectionFault(index, trigrams, MAX_TRIGRAM_PREDICTIONS, e) {
      FaultRefuses(index, trigrams, MAX_TRIGRAM_PREDICTIONS, e);
    }
  }

  /** The three payload sections. */
  method WritePayload(c: Codec, es: seq<SourceEntry>, includeFrequencies: bool, bigrams: seq<NgramRecord>,
                      trigrams: seq<NgramRecord>)
    returns (r: Result<seq<byte>, CompileError>, stats: CompileStats)
    requires Arity(bigrams, 1) && Arity(trigrams, 2)
    ensures r.Ok? ==> forall i | 0 <= i < |es| :: EntryFits(c, PackEntry(es[i], includeFrequencies))
    ensures
      var index := LexiconIndex(SourceForms(es));
      r.Ok? ==>
        && SectionCompiles(index, bigrams, MAX_BIGRAM_PREDICTIONS)
        && SectionCompiles(index, trigrams, MAX_TRIGRAM_PREDICTIONS)
        && r.value == EncodePayload(c, PackOf(es, includeFrequencies, bigrams, trigrams))
        && stats == CompileStats(FrequencyEntries(PackEntries(es, includeFrequencies)),
                                 InLexiconCount(index, bigrams), InLexiconCount(index, trigrams))
    ensures r.Err? ==> CompileFault(c, es, includeFrequencies, bigrams, trigrams, r.error)
  {
    hide SectionFault;
    hide SectionCompiles;
    hide EntryFits;
    hide EncodeEntries;
    hide EncodeSection;
    hide SectionOf;
    hide StrFits;
    hide LexiconIndex;
    hide InLexiconCount;
    hide FrequencyEntries;
    hide PackEntry;
    stats := CompileStats(0, 0, 0);
    var index, frequencyEntryCount, bigramCount, trigramCount;
    r, index, frequencyEntryCount := WriteEntries(c, es, includeFrequencies);
    if r.Err? {
      return;
    }
    LexiconIndexInjective(SourceForms(es));
    r, bigramCount := CompileSection(index, bigrams, r.value, MAX_BIGRAM_PREDICTIONS, 1);
    if r.Err? {
      return;
    }
    r, trigramCount := CompileSection(index, trigrams, r.value, MAX_TRIGRAM_PREDICTIONS, 2);
    Associate(EncodeEntries(c, PackEntries(es, includeFrequencies)), EncodeSection(SectionOf(index, bigrams)),
              EncodeSection(SectionOf(index, trigrams)));
    stats := CompileStats(frequencyEntryCount, bigramCount, trigramCount);
  }

  /** Compiles exactly the compilable inputs, to the encoding of their pack; an error names
      something wrong with the input. The statistics count what the pack holds. */
  method CompileBinaryPackFromRecords(c: Codec, es: seq<SourceEntry>, includeFrequencies: bool,
                                      bigrams: seq<NgramRecord>, trigrams: seq<NgramRecord>)
    returns (r: Result<(seq<byte>, CompileStats), CompileError>)
    requires Arity(bigrams, 1) && Arity(trigrams, 2)
    ensures r.Ok? <==> Compilable(c, es, includeFrequencies, bigrams, trigrams)
    ensures r.Err? ==> CompileFault(c, es, includeFrequencies, bigrams, trigrams, r.error)
    ensures
      var index := LexiconIndex(SourceForms(es));
      r.Ok? ==> r.value == (EncodePack(c, PackOf(es, includeFrequencies, bigrams, trigrams)),
                            CompileStats(FrequencyEntries(PackEntries(es, includeFrequencies)),
                                         InLexiconCount(index, bigrams), InLexiconCount(index, trigrams)))
  {
    hide SectionFault;
    hide SectionCompiles;
    hide EntryFits;
    hide EncodePayload;
    hide EncodeHeader;
    hide SectionOf;
    hide StrFits;
    hide LexiconIndex;
    hide InLexiconCount;
    hide FrequencyEntries;
    hide PackEntry;
    var payload, stats := WritePayload(c, es, includeFrequencies, bigrams, trigrams);
    if payload.Err? {
      CompileFaultRefuses(c, es, includeFrequencies, bigrams, trigrams, payload.error);
      return Err(payload.error);
    }
    if !StrFits(c, LANGUAGE_TAG) {
      return Err(FieldTooLong);
    }
    if |es| > U32_MAX {
      return Err(TooManyEntries);
    }
    if |payload.value| >= 0x1_0000_0000_0000_0000 {
      return Err(PayloadTooLong);
    }
    return Ok((EncodeHeader(c, |es|, payload.value) + payload.value, stats));
  }
}
