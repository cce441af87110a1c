/** The loader's decoding steps: a cursor over the payload, checked before every read. Each
    method agrees with its parser on the bytes behind the cursor, errors included. */
module PackLoader {
  import opened Wrappers
  import opened Orders
  import opened Lexicon
  import opened FuzzyRows
  import opened TrieShape
  import opened Tries
  import opened PackFormat

  type Read<T> = Result<(T, nat), LoadError>

  /** A cursor-based read and a parse of the remaining bytes have the same outcome. */
  ghost predicate Agrees<T>(r: Read<T>, bytes: seq<byte>, p: Parsed<T>) {
    match r
    case Ok((x, next)) => next <= |bytes| && p == Ok((x, bytes[next..]))
    case Err(e) => p == Err(e)
  }

  function Prepend<T>(acc: seq<T>, p: Parsed<seq<T>>): Parsed<seq<T>> {
    match p
    case Ok((xs, rest)) => Ok((acc + xs, rest))
    case Err(e) => Err(e)
  }

  method ReadNum(bytes: seq<byte>, cursor: nat, width: nat) returns (r: Read<nat>)
    requires cursor <= |bytes|
    ensures Agrees(r, bytes, ParseNum(bytes[cursor..], width))
    ensures r.Ok? ==> r.value.1 == cursor + width && r.value.0 < Bound(width)
  {
    if cursor + width > |bytes| {
      return Err(TruncatedPayload);
    }
    assert bytes[cursor..][..width] == bytes[cursor..cursor + width];
    assert bytes[cursor..][width..] == bytes[cursor + width..];
    FromLERoundTrip(bytes[cursor..cursor + width]);
    return Ok((FromLE(bytes[cursor..cursor + width]), cursor + width));
  }

  /** `read_str`: a length-prefixed string. */
  method ReadStr(c: Codec, bytes: seq<byte>, cursor: nat) returns (r: Read<Str>)
    requires cursor <= |bytes|
    ensures Agrees(r, bytes, ParseStr(c, bytes[cursor..]))
  {
    var lenRead :- ReadNum(bytes, cursor, 2);
    var (len, start) := lenRead;
    var end := start + len;
    if end > |bytes| {
      return Err(TruncatedPayload);
    }
    assert bytes[start..][..len] == bytes[start..end];
    assert bytes[start..][len..] == bytes[end..];
    var s := c.decode(bytes[start..end]);
    if s.None? {
      return Err(InvalidPayload);
    }
    return Ok((s.value, end));
  }

  /** A counted list of strings. */
  method ReadList(c: Codec, bytes: seq<byte>, cursor0: nat) returns (r: Read<seq<Str>>)
    requires cursor0 <= |bytes|
    ensures Agrees(r, bytes, ParseList(c, bytes[cursor0..]))
  {
    hide ParseStr;
    var nRead :- ReadNum(bytes, cursor0, 2);
    var (n, cursor) := nRead;
    ghost var all := ParseStrs(c, bytes[cursor..], n);
    var list: seq<Str> := [];
    PrependEnds(list, all, []);
    for i := 0 to n
      invariant cursor <= |bytes|
      invariant all == Prepend(list, ParseStrs(c, bytes[cursor..], n - i))
    {
      var sRead :- ReadStr(c, bytes, cursor);
      var (s, next) := sRead;
      PrependOne(list, s, ParseStrs(c, bytes[next..], n - i - 1));
      list, cursor := list + [s], next;
    }
    PrependEnds(list, all, bytes[cursor..]);
    return Ok((list, cursor));
  }

  /** Nothing read so far, or nothing left to read. */
  lemma PrependEnds<T>(acc: seq<T>, p: Parsed<seq<T>>, rest: seq<byte>)
    ensures Prepend([], p) == p
    ensures Prepend(acc, Ok(([], rest))) == Ok((acc, rest))
  {
    assert acc + [] == acc;
    if p.Ok? {
      assert [] + p.value.0 == p.value.0;
    }
  }

  lemma PrependOne<T>(acc: seq<T>, x: T, p: Parsed<seq<T>>)
    ensures Prepend(acc, Prepend([x], p)) == Prepend(acc + [x], p)
  {
    if p.Ok? {
      assert acc + ([x] + p.value.0) == (acc + [x]) + p.value.0;
    }
  }

  method ReadMetadata(bytes: seq<byte>, cursor: nat) returns (r: Read<FrequencyMetadata>)
    requires cursor <= |bytes|
    ensures Agrees(r, bytes, ParseMetadata(bytes[cursor..]))
  {
    if cursor + 20 > |bytes| {
      return Err(TruncatedPayload);
    }
    Bounds();
    var b := bytes[cursor..];
    assert b[..8] == bytes[cursor..cursor + 8];
    assert b[8..16] == bytes[cursor + 8..cursor + 16];
    assert b[16..20] == bytes[cursor + 16..cursor + 20];
    assert b[20..] == bytes[cursor + 20..];
    FromLERoundTrip(bytes[cursor..cursor + 8]);
    FromLERoundTrip(bytes[cursor + 8..cursor + 16]);
    FromLERoundTrip(bytes[cursor + 16..cursor + 20]);
    var tokenCount: u64 := FromLE(bytes[cursor..cursor + 8]);
    var documentCount: u64 := FromLE(bytes[cursor + 8..cursor + 16]);
    var zipfMilli: u32 := FromLE(bytes[cursor + 16..cursor + 20]);
    return Ok((FrequencyMetadata(tokenCount, documentCount, zipfMilli), cursor + 20));
  }

  method ReadEntry(c: Codec, bytes: seq<byte>, cursor0: nat) returns (r: Read<LexiconEntry>)
    requires cursor0 <= |bytes|
    ensures Agrees(r, bytes, ParseEntry(c, bytes[cursor0..]))
  {
    hide ParseStr;
    hide ParseList;
    hide ParseMetadata;
    hide ParseNum;
    Bounds();
    var wordRead :- ReadStr(c, bytes, cursor0);
    var (word, c1) := wordRead;
    var lemmaFormRead :- ReadStr(c, bytes, c1);
    var (lemmaForm, c2) := lemmaFormRead;
    var normalizedRead :- ReadStr(c, bytes, c2);
    var (normalized, c3) := normalizedRead;
    var partOfSpeechRead :- ReadStr(c, bytes, c3);
    var (partOfSpeech, c4) := partOfSpeechRead;
    var frequencyRead :- ReadNum(bytes, c4, 8);
    var (frequency, c5) := frequencyRead;
    var statusRead :- ReadStr(c, bytes, c5);
    var (status, c6) := statusRead;
    var regionsRead :- ReadList(c, bytes, c6);
    var (regions, c7) := regionsRead;
    var sourcesRead :- ReadList(c, bytes, c7);
    var (sources, c8) := sourcesRead;
    var metadataRead :- ReadMetadata(bytes, c8);
    var (metadata, c9) := metadataRead;
    var entry := LexiconEntry(word, normalized, lemmaForm, partOfSpeech, frequency, regions, status, sources, metadata);
    return Ok((entry, c9));
  }

  // Sections

  method ReadKey(bytes: seq<byte>, cursor0: nat, k: nat) returns (r: Read<seq<nat>>)
    requires cursor0 <= |bytes|
    ensures Agrees(r, bytes, ParseKey(bytes[cursor0..], k))
  {
    hide ParseNum;
    var cursor := cursor0;
    ghost var all := ParseKey(bytes[cursor..], k);
    var key: seq<nat> := [];
    PrependEnds(key, all, []);
    for i := 0 to k
      invariant cursor <= |bytes|
      invariant all == Prepend(key, ParseKey(bytes[cursor..], k - i))
    {
      var xRead :- ReadNum(bytes, cursor, 4);
      var (x, next) := xRead;
      PrependOne(key, x, ParseKey(bytes[next..], k - i - 1));
      key, cursor := key + [x], next;
    }
    PrependEnds(key, all, bytes[cursor..]);
    return Ok((key, cursor));
  }

  method ReadPrediction(bytes: seq<byte>, cursor: nat, n: nat, seen: set<nat>) returns (r: Read<Prediction>)
    requires cursor <= |bytes|
    ensures Agrees(r, bytes, ParsePrediction(bytes[cursor..], n, seen))
  {
    if cursor + 16 > |bytes| {
      return Err(TruncatedPayload);
    }
    ghost var b := bytes[cursor..];
    assert b[..4] == bytes[cursor..cursor + 4];
    assert b[4..12] == bytes[cursor + 4..cursor + 12];
    assert b[12..16] == bytes[cursor + 12..cursor + 16];
    assert b[16..] == bytes[cursor + 16..];
    var next := FromLE(bytes[cursor..cursor + 4]);
    if next >= n {
      return Err(InvalidPayload);
    }
    if next in seen {
      return Err(InvalidPayload);
    }
    var count := FromLE(bytes[cursor + 4..cursor + 12]);
    if count == 0 {
      return Err(InvalidPayload);
    }
    var probability := FromLE(bytes[cursor + 12..cursor + 16]);
    if probability > PROBABILITY_SCALE {
      return Err(InvalidPayload);
    }
    return Ok((Prediction(next, count, probability), cursor + 16));
  }

  method ReadPredictions(bytes: seq<byte>, cursor0: nat, n: nat, m: nat) returns (r: Read<seq<Prediction>>)
    requires cursor0 <= |bytes|
    ensures Agrees(r, bytes, ParsePredictions(bytes[cursor0..], n, m, {}))
  {
    hide ParsePrediction;
    var cursor := cursor0;
    ghost var all := ParsePredictions(bytes[cursor..], n, m, {});
    var predictions: seq<Prediction> := [];
    var seen: set<nat> := {};
    PrependEnds(predictions, all, []);
    for i := 0 to m
      invariant cursor <= |bytes|
      invariant all == Prepend(predictions, ParsePredictions(bytes[cursor..], n, m - i, seen))
    {
      var pRead :- ReadPrediction(bytes, cursor, n, seen);
      var (p, next) := pRead;
      PrependOne(predictions, p, ParsePredictions(bytes[next..], n, m - i - 1, seen + {p.next}));
      predictions, seen, cursor := predictions + [p], seen + {p.next}, next;
    }
    PrependEnds(predictions, all, bytes[cursor..]);
    return Ok((predictions, cursor));
  }

  type NgramIndex = map<seq<nat>, seq<Prediction>>

  /** The index a list of contexts builds. */
  function IndexOf(cs: seq<Context>): NgramIndex {
    if cs == [] then map[] else IndexOf(cs[..|cs| - 1])[cs[|cs| - 1].key := cs[|cs| - 1].predictions]
  }

  function Indexed(p: Parsed<seq<Context>>): Parsed<NgramIndex> {
    match p
    case Ok((cs, rest)) => Ok((IndexOf(cs), rest))
    case Err(e) => Err(e)
  }

  method ReadContext(bytes: seq<byte>, cursor0: nat, n: nat, k: nat, max: nat, seen: set<seq<nat>>)
    returns (r: Read<Context>)
    requires cursor0 <= |bytes|
    ensures Agrees(r, bytes, ParseContext(bytes[cursor0..], n, k, max, seen))
  {
    hide ParseNum;
    hide ParseKey;
    hide ParsePredictions;
    if cursor0 + (4 * k + 2) > |bytes| {
      return Err(TruncatedPayload);
    }
    var keyRead :- ReadKey(bytes, cursor0, k);
    var (key, c1) := keyRead;
    if !KeyBelow(key, n) {
      return Err(InvalidPayload);
    }
    if key in seen {
      return Err(InvalidPayload);
    }
    var mRead :- ReadNum(bytes, c1, 2);
    var (m, c2) := mRead;
    if m == 0 {
      return Err(InvalidPayload);
    }
    if m > max {
      return Err(InvalidPayload);
    }
    var predictionsRead :- ReadPredictions(bytes, c2, n, m);
    var (predictions, c3) := predictionsRead;
    return Ok((Context(key, predictions), c3));
  }

  lemma IndexOfNone()
    ensures IndexOf([]) == map[]
  {
  }

  lemma IndexOfAppend(cs: seq<Context>, cx: Context)
    ensures IndexOf(cs + [cx]) == IndexOf(cs)[cx.key := cx.predictions]
  {
    assert (cs + [cx])[..|cs|] == cs;
  }

  /** One n-gram section into its index. */
  method ReadSection(bytes: seq<byte>, cursor0: nat, n: nat, k: nat, max: nat) returns (r: Read<NgramIndex>)
    requires cursor0 <= |bytes|
    ensures Agrees(r, bytes, Indexed(ParseSection(bytes[cursor0..], n, k, max)))
  {
    hide ParseContext;
    hide ParseNum;
    hide Capacity;
    hide IndexOf;
    IndexOfNone();
    var mRead :- ReadNum(bytes, cursor0, 4);
    var (m, cursor) := mRead;
    if m > Capacity(n, k) {
      return Err(InvalidPayload);
    }
    if m > (|bytes| - cursor) / MinContextBytes(k) {
      return Err(InvalidPayload);
    }
    ghost var all := ParseContexts(bytes[cursor..], n, k, max, m, {});
    ghost var contexts: seq<Context> := [];
    var index: NgramIndex := map[];
    PrependEnds(contexts, all, []);
    assert index.Keys == {};
    for i := 0 to m
      invariant cursor <= |bytes| && index == IndexOf(contexts)
      invariant all == Prepend(contexts, ParseContexts(bytes[cursor..], n, k, max, m - i, index.Keys))
    {
      var cxRead :- ReadContext(bytes, cursor, n, k, max, index.Keys);
      var (cx, next) := cxRead;
      PrependOne(contexts, cx, ParseContexts(bytes[next..], n, k, max, m - i - 1, index.Keys + {cx.key}));
      IndexOfAppend(contexts, cx);
      assert index[cx.key := cx.predictions].Keys == index.Keys + {cx.key};
      index, cursor := index[cx.key := cx.predictions], next;
      contexts := contexts + [cx];
    }
    PrependEnds(contexts, all, bytes[cursor..]);
    return Ok((index, cursor));
  }

  // Entries into the staged store and trie

  /** What the trie is fed: normalized forms with their frequencies, in entry order. */
  function Inserted(entries: seq<LexiconEntry>): (r: seq<Entry>)
    ensures |r| == |entries| && forall i | 0 <= i < |r| :: r[i] == (entries[i].normalized, entries[i].frequency)
  {
    seq(|entries|, i requires 0 <= i < |entries| => (entries[i].normalized, entries[i].frequency))
  }

  function MaxFrequency(entries: seq<LexiconEntry>): u64 {
    if entries == [] then 0
    else
      var rest, f := MaxFrequency(entries[..|entries| - 1]), entries[|entries| - 1].frequency;
      if f > rest then f else rest
  }

  /** No entry is more frequent, and some entry is as frequent unless all frequencies are zero. */
  lemma {:induction false} MaxFrequencyIsMaximum(entries: seq<LexiconEntry>)
    ensures forall i | 0 <= i < |entries| :: entries[i].frequency <= MaxFrequency(entries)
    ensures MaxFrequency(entries) > 0 ==>
              exists i :: 0 <= i < |entries| && entries[i].frequency == MaxFrequency(entries)
  {
    if entries != [] {
      MaxFrequencyIsMaximum(entries[..|entries| - 1]);
      assert entries[|entries| - 1].frequency <= MaxFrequency(entries);
    }
  }

  lemma InsertedAppend(entries: seq<LexiconEntry>, e: LexiconEntry)
    ensures Inserted(entries + [e]) == Inserted(entries) + [(e.normalized, e.frequency)]
    ensures MaxFrequency(entries + [e])
            == if e.frequency > MaxFrequency(entries) then e.frequency else MaxFrequency(entries)
  {
    assert (entries + [e])[..|entries|] == entries;
  }

  /** The staged store, trie and maximum frequency all stand for the same entries. */
  ghost predicate Staging(builder: LexiconStoreBuilder, trie: Trie, maxFrequency: u64, entries: seq<LexiconEntry>)
    reads builder, trie
  {
    && builder.Valid() && builder.Entries() == entries
    && trie.Valid() && trie.View() == Latest(Inserted(entries))
    && maxFrequency == MaxFrequency(entries)
  }

  method StageEntry(builder: LexiconStoreBuilder, trie: Trie, maxFrequency0: u64, e: LexiconEntry,
                    ghost entries: seq<LexiconEntry>)
    returns (ok: bool, maxFrequency: u64)
    requires Staging(builder, trie, maxFrequency0, entries) && |entries| <= U32_MAX
    modifies builder, trie
    ensures trie.Valid()
    ensures ok <==> old(builder.CurrentUsage()).Add(builder.codec, e).Fits()
    ensures ok ==> Staging(builder, trie, maxFrequency, entries + [e])
    ensures ok ==> builder.CurrentUsage() == old(builder.CurrentUsage()).Add(builder.codec, e)
  {
    hide Usage.Add;
    hide Usage.Fits;
    hide LexiconStore.Valid;
    hide Latest;
    hide MaxFrequency;
    InsertedAppend(entries, e);
    LatestAppend(Inserted(entries), (e.normalized, e.frequency));
    maxFrequency := maxFrequency0;
    if e.frequency > maxFrequency {
      maxFrequency := e.frequency;
    }
    trie.Insert(e.normalized, e.frequency);
    ok := builder.Push(e);
  }

  /** One more entry read, or the error that stops the parse. */
  lemma ParseEntriesStep(c: Codec, b: seq<byte>, n: nat, usage: Usage, acc: seq<LexiconEntry>)
    requires n > 0
    ensures
      match ParseEntry(c, b)
      case Err(e) => Prepend(acc, ParseEntries(c, b, n, usage)) == Err(e)
      case Ok((e, b1)) =>
        Prepend(acc, ParseEntries(c, b, n, usage))
        == if usage.Add(c, e).Fits() then Prepend(acc + [e], ParseEntries(c, b1, n - 1, usage.Add(c, e)))
           else Err(InvalidPayload)
  {
    hide ParseEntry;
    hide Usage.Add;
    hide Usage.Fits;
    if ParseEntry(c, b).Ok? {
      var (e, b1) := ParseEntry(c, b).value;
      PrependOne(acc, e, ParseEntries(c, b1, n - 1, usage.Add(c, e)));
    }
  }

  lemma ParseEntriesDone(c: Codec, b: seq<byte>, usage: Usage)
    ensures ParseEntries(c, b, 0, usage) == Ok(([], b))
  {
  }

  method ReadEntries(c: Codec, bytes: seq<byte>, count: u32)
    returns (r: Read<LexiconStore>, trie: Trie, maxFrequency: u64)
    requires c.Lawful()
    ensures fresh(trie) && trie.Valid()
    ensures
      var p := ParseEntries(c, bytes, count, NO_USAGE);
      match r
      case Ok((store, next)) =>
        && p.Ok? && next <= |bytes| && p.value.1 == bytes[next..]
        && store.Valid(c) && store.Entries(c) == p.value.0
        && trie.View() == Latest(Inserted(p.value.0)) && maxFrequency == MaxFrequency(p.value.0)
      case Err(e) => p == Err(e)
  {
    hide ParseEntry;
    hide ParseEntries;
    hide Prepend;
    hide Usage.Add;
    hide Usage.Fits;
    hide LexiconStore.Valid;
    hide LexiconStore.Entries;
    hide Shape.Valid;
    hide Latest;
    hide MaxFrequency;
    var builder := new LexiconStoreBuilder(c);
    trie := new Trie();
    maxFrequency := 0;
    var cursor := 0;
    ghost var all := ParseEntries(c, bytes, count, NO_USAGE);
    ghost var entries: seq<LexiconEntry> := [];
    assert bytes[0..] == bytes;
    NothingInserted();
    PrependEnds(entries, all, []);
    for i := 0 to count
      invariant cursor <= |bytes| && fresh(trie) && fresh(builder) && trie.Valid()
      invariant builder.codec == c && |entries| == i && Staging(builder, trie, maxFrequency, entries)
      invariant all == Prepend(entries, ParseEntries(c, bytes[cursor..], count - i, builder.CurrentUsage()))
    {
      ParseEntriesStep(c, bytes[cursor..], count - i, builder.CurrentUsage(), entries);
      var entry := ReadEntry(c, bytes, cursor);
      if entry.Err? {
        r := Err(entry.error);
        return;
      }
      var (e, next) := entry.value;
      var ok;
      ok, maxFrequency := StageEntry(builder, trie, maxFrequency, e, entries);
      if !ok {
        r := Err(InvalidPayload);
        return;
      }
      cursor := next;
      entries := entries + [e];
    }
    PrependEnds(entries, all, bytes[cursor..]);
    ParseEntriesDone(c, bytes[cursor..], builder.CurrentUsage());
    var store := builder.Finish();
    r := Ok((store, cursor));
  }

  lemma NothingInserted()
    ensures Latest(Inserted([])) == map[] && MaxFrequency([]) == 0
  {
  }

  /** Feeds more entries to a staged store and trie; stops when a 32-bit quantity overflows. */
  method StageEntries(builder: LexiconStoreBuilder, trie: Trie, maxFrequency0: u64, entries: seq<LexiconEntry>,
                      ghost before: seq<LexiconEntry>)
    returns (ok: bool, maxFrequency: u64)
    requires Staging(builder, trie, maxFrequency0, before) && |before| + |entries| <= U32_MAX
    requires builder.CurrentUsage() == UsageFrom(builder.codec, NO_USAGE, before)
    modifies builder, trie
    ensures trie.Valid()
    ensures ok <==> entries == [] || UsageFrom(builder.codec, NO_USAGE, before + entries).Fits()
    ensures ok ==> Staging(builder, trie, maxFrequency, before + entries)
    ensures ok ==> builder.CurrentUsage() == UsageFrom(builder.codec, NO_USAGE, before + entries)
  {
    hide LexiconStore.Valid;
    hide LexiconStore.Entries;
    hide Shape.Valid;
    hide Latest;
    hide MaxFrequency;
    hide Usage.Add;
    hide Usage.Fits;
    maxFrequency := maxFrequency0;
    ghost var c := builder.codec;
    ghost var done := before;
    assert before + entries[..0] == before;
    for i := 0 to |entries|
      invariant trie.Valid() && done == before + entries[..i] && Staging(builder, trie, maxFrequency, done)
      invariant builder.CurrentUsage() == UsageFrom(c, NO_USAGE, done)
      invariant i > 0 ==> UsageFrom(c, NO_USAGE, done).Fits()
    {
      var e := entries[i];
      UsageStep(c, done, e, entries[i + 1..]);
      NextSlice(before, entries, i);
      ok, maxFrequency := StageEntry(builder, trie, maxFrequency, e, done);
      if !ok {
        return;
      }
      done := done + [e];
    }
    ok := true;
    assert entries[..|entries|] == entries;
  }

  lemma NextSlice<T>(before: seq<T>, s: seq<T>, i: nat)
    requires i < |s|
    ensures before + s[..i + 1] == (before + s[..i]) + [s[i]]
    ensures before + s == ((before + s[..i]) + [s[i]]) + s[i + 1..]
  {
  }

  lemma UsageStep(c: Codec, done: seq<LexiconEntry>, e: LexiconEntry, more: seq<LexiconEntry>)
    ensures UsageFrom(c, NO_USAGE, done + [e]) == UsageFrom(c, NO_USAGE, done).Add(c, e)
    ensures !UsageFrom(c, NO_USAGE, done + [e]).Fits() ==> !UsageFrom(c, NO_USAGE, (done + [e]) + more).Fits()
  {
    UsageAppend(c, NO_USAGE, done, [e]);
    UsageOne(c, UsageFrom(c, NO_USAGE, done), e);
    UsageAppend(c, NO_USAGE, done + [e], more);
    if !UsageFrom(c, NO_USAGE, done + [e]).Fits() {
      Overflowed(c, UsageFrom(c, NO_USAGE, done + [e]), more);
    }
  }

  lemma Overflowed(c: Codec, usage: Usage, more: seq<LexiconEntry>)
    requires !usage.Fits()
    ensures !UsageFrom(c, usage, more).Fits()
  {
    if UsageFrom(c, usage, more).Fits() {
      UsageGrows(c, usage, more);
    }
  }
}
