/** The bytes of a pack written out: the layout of the format as a list of fields, the conditions on
    its contents, and which damage is reported as what. */
module PackLayout {
  import opened Wrappers
  import opened Orders
  import opened Lexicon
  import opened PackFormat

  /** Bytes as they are, a little-endian number, or a text with its 16-bit length. */
  datatype Field = Raw(bytes: seq<byte>) | Number(value: nat, width: nat) | Text(text: Str) {
    function Bytes(c: Codec): seq<byte> {
      match this
      case Raw(bytes) => bytes
      case Number(value, width) => LE(value, width)
      case Text(text) => LE(|c.encode(text)|, 2) + c.encode(text)
    }
  }

  function EachText(texts: seq<Str>): seq<Field> {
    seq(|texts|, i requires 0 <= i < |texts| => Text(texts[i]))
  }

  function Layout(c: Codec, fields: seq<Field>): seq<byte> {
    if fields == [] then [] else fields[0].Bytes(c) + Layout(c, fields[1..])
  }

  // The fields

  function EntryFields(e: LexiconEntry): seq<Field> {
    [Text(e.word), Text(e.lemmaForm), Text(e.normalized), Text(e.partOfSpeech), Number(e.frequency, 8),
     Text(e.status)] + ListFields(e.regions) + ListFields(e.sources)
    + [Number(e.metadata.tokenCount, 8), Number(e.metadata.documentCount, 8), Number(e.metadata.zipfMilli, 4)]
  }

  function ListFields(ss: seq<Str>): seq<Field> {
    [Number(|ss|, 2)] + EachText(ss)
  }

  function KeyFields(key: seq<nat>): seq<Field> {
    seq(|key|, i requires 0 <= i < |key| => Number(key[i], 4))
  }

  function PredictionFields(p: Prediction): seq<Field> {
    [Number(p.next, 4), Number(p.count, 8), Number(p.probability, 4)]
  }

  function ContextFields(cx: Context): seq<Field> {
    KeyFields(cx.key) + [Number(|cx.predictions|, 2)] + Each(p => PredictionFields(p), cx.predictions)
  }

  function SectionFields(cs: seq<Context>): seq<Field> {
    [Number(|cs|, 4)] + Each(cx => ContextFields(cx), cs)
  }

  function PayloadFields(p: Pack): seq<Field> {
    Each(e => EntryFields(e), p.entries) + SectionFields(p.bigrams) + SectionFields(p.trigrams)
  }

  /** The fields of several records, one after the other. */
  function Each<T>(fieldsOf: T -> seq<Field>, ts: seq<T>): seq<Field> {
    if ts == [] then [] else fieldsOf(ts[0]) + Each(fieldsOf, ts[1..])
  }

  /** Magic bytes "KRM1", version 4, the language tag, the number of entries, the length and the digest
      of the payload. */
  function HeaderFields(c: Codec, count: nat, payload: seq<byte>): seq<Field> {
    [Raw([0x4B, 0x52, 0x4D, 0x31]), Raw([4, 0, 0, 0]), Text("ku-Latn"), Number(count, 4), Number(|payload|, 8),
     Raw(c.digest(payload))]
  }

  // The encoding has this layout

  lemma {:induction false} LayoutConcat(c: Codec, f: seq<Field>, g: seq<Field>)
    ensures Layout(c, f + g) == Layout(c, f) + Layout(c, g)
  {
    hide Field.Bytes;
    if f == [] {
      assert f + g == g;
    } else {
      assert (f + g)[1..] == f[1..] + g;
      LayoutConcat(c, f[1..], g);
      Associate(f[0].Bytes(c), Layout(c, f[1..]), Layout(c, g));
    }
  }

  lemma LayoutOne(c: Codec, f: Field)
    ensures Layout(c, [f]) == f.Bytes(c)
  {
    assert Layout(c, [f]) == f.Bytes(c) + Layout(c, []);
  }

  lemma LayoutPrepend(c: Codec, f: Field, rest: seq<Field>)
    ensures Layout(c, [f] + rest) == f.Bytes(c) + Layout(c, rest)
  {
    assert ([f] + rest)[1..] == rest;
  }

  lemma {:induction false} TextsLayout(c: Codec, ss: seq<Str>)
    ensures Layout(c, EachText(ss)) == EncodeStrs(c, ss)
  {
    hide LE;
    if ss != [] {
      TextsLayout(c, ss[1..]);
      assert EachText(ss) == [Text(ss[0])] + EachText(ss[1..]);
      LayoutPrepend(c, Text(ss[0]), EachText(ss[1..]));
    }
  }

  lemma ListLayout(c: Codec, ss: seq<Str>)
    ensures Layout(c, ListFields(ss)) == EncodeList(c, ss)
  {
    hide LE;
    hide Layout;
    TextsLayout(c, ss);
    LayoutPrepend(c, Number(|ss|, 2), EachText(ss));
  }

  lemma MetadataLayout(c: Codec, m: FrequencyMetadata)
    ensures Layout(c, [Number(m.tokenCount, 8), Number(m.documentCount, 8), Number(m.zipfMilli, 4)])
            == EncodeMetadata(m)
  {
    hide LE;
    var a, b, z := Number(m.tokenCount, 8), Number(m.documentCount, 8), Number(m.zipfMilli, 4);
    LayoutOne(c, z);
    LayoutPrepend(c, b, [z]);
    LayoutPrepend(c, a, [b, z]);
    assert [a, b, z] == [a] + [b, z] && [b, z] == [b] + [z];
  }

  lemma EntryLayout(c: Codec, e: LexiconEntry)
    ensures Layout(c, EntryFields(e)) == EncodeEntry(c, e)
  {
    hide LE;
    hide Layout;
    hide EncodeStrs;
    hide EncodeList;
    hide EncodeMetadata;
    var texts := [e.word, e.lemmaForm, e.normalized, e.partOfSpeech];
    var m := [Number(e.metadata.tokenCount, 8), Number(e.metadata.documentCount, 8), Number(e.metadata.zipfMilli, 4)];
    MetadataLayout(c, e.metadata);
    ListLayout(c, e.sources);
    ListLayout(c, e.regions);
    TextsLayout(c, texts);
    var f5 := ListFields(e.sources) + m;
    var f4 := ListFields(e.regions) + f5;
    var f3 := [Text(e.status)] + f4;
    var f2 := [Number(e.frequency, 8)] + f3;
    LayoutConcat(c, ListFields(e.sources), m);
    LayoutConcat(c, ListFields(e.regions), f5);
    LayoutPrepend(c, Text(e.status), f4);
    LayoutPrepend(c, Number(e.frequency, 8), f3);
    LayoutConcat(c, EachText(texts), f2);
    hide ListFields;
    assert EntryFields(e) == EachText(texts) + f2;
  }

  lemma {:induction false} EntriesLayout(c: Codec, es: seq<LexiconEntry>)
    ensures Layout(c, Each(e => EntryFields(e), es)) == EncodeEntries(c, es)
  {
    hide EntryFields;
    hide EncodeEntry;
    if es != [] {
      EntriesLayout(c, es[1..]);
      EntryLayout(c, es[0]);
      LayoutConcat(c, EntryFields(es[0]), Each(e => EntryFields(e), es[1..]));
    }
  }

  lemma {:induction false} KeyLayout(c: Codec, key: seq<nat>)
    ensures Layout(c, KeyFields(key)) == EncodeKey(key)
  {
    hide LE;
    if key != [] {
      KeyLayout(c, key[1..]);
      assert KeyFields(key) == [Number(key[0], 4)] + KeyFields(key[1..]);
      LayoutPrepend(c, Number(key[0], 4), KeyFields(key[1..]));
    }
  }

  lemma PredictionLayout(c: Codec, p: Prediction)
    ensures Layout(c, PredictionFields(p)) == EncodePrediction(p)
  {
    hide LE;
    var a, b, z := Number(p.next, 4), Number(p.count, 8), Number(p.probability, 4);
    LayoutOne(c, z);
    LayoutPrepend(c, b, [z]);
    LayoutPrepend(c, a, [b, z]);
    assert [a, b, z] == [a] + [b, z] && [b, z] == [b] + [z];
  }

  lemma {:induction false} PredictionsLayout(c: Codec, ps: seq<Prediction>)
    ensures Layout(c, Each(p => PredictionFields(p), ps)) == EncodePredictions(ps)
  {
    hide PredictionFields;
    hide EncodePrediction;
    if ps != [] {
      PredictionsLayout(c, ps[1..]);
      PredictionLayout(c, ps[0]);
      LayoutConcat(c, PredictionFields(ps[0]), Each(p => PredictionFields(p), ps[1..]));
    }
  }

  lemma ContextLayout(c: Codec, cx: Context)
    ensures Layout(c, ContextFields(cx)) == EncodeContext(cx)
  {
    hide LE;
    hide Layout;
    hide Each;
    var ps := Each(p => PredictionFields(p), cx.predictions);
    KeyLayout(c, cx.key);
    PredictionsLayout(c, cx.predictions);
    LayoutPrepend(c, Number(|cx.predictions|, 2), ps);
    LayoutConcat(c, KeyFields(cx.key), [Number(|cx.predictions|, 2)] + ps);
    assert ContextFields(cx) == KeyFields(cx.key) + ([Number(|cx.predictions|, 2)] + ps);
  }

  lemma {:induction false} ContextsLayout(c: Codec, cs: seq<Context>)
    ensures Layout(c, Each(cx => ContextFields(cx), cs)) == EncodeContexts(cs)
  {
    hide ContextFields;
    hide EncodeContext;
    if cs != [] {
      ContextsLayout(c, cs[1..]);
      ContextLayout(c, cs[0]);
      LayoutConcat(c, ContextFields(cs[0]), Each(cx => ContextFields(cx), cs[1..]));
    }
  }

  lemma SectionLayout(c: Codec, cs: seq<Context>)
    ensures Layout(c, SectionFields(cs)) == EncodeSection(cs)
  {
    hide LE;
    hide Layout;
    ContextsLayout(c, cs);
    LayoutPrepend(c, Number(|cs|, 4), Each(cx => ContextFields(cx), cs));
  }

  lemma HeaderLayout(c: Codec, count: nat, payload: seq<byte>)
    ensures Layout(c, HeaderFields(c, count, payload)) == EncodeHeader(c, count, payload)
  {
    VersionBytes();
    hide LE;
    hide Layout;
    var f5 := [Raw(c.digest(payload))];
    var f4 := [Number(|payload|, 8)] + f5;
    var f3 := [Number(count, 4)] + f4;
    var f2 := [Text("ku-Latn")] + f3;
    var f1 := [Raw([4, 0, 0, 0])] + f2;
    LayoutOne(c, Raw(c.digest(payload)));
    LayoutPrepend(c, Number(|payload|, 8), f5);
    LayoutPrepend(c, Number(count, 4), f4);
    LayoutPrepend(c, Text("ku-Latn"), f3);
    LayoutPrepend(c, Raw([4, 0, 0, 0]), f2);
    LayoutPrepend(c, Raw([0x4B, 0x52, 0x4D, 0x31]), f1);
    assert HeaderFields(c, count, payload) == [Raw([0x4B, 0x52, 0x4D, 0x31])] + f1;
  }

  lemma VersionBytes()
    ensures LE(PACK_VERSION, 4) == [4, 0, 0, 0]
  {
    assert LE(0, 0) == [];
    assert LE(0, 1) == [0];
    assert LE(0, 2) == [0, 0];
    assert LE(0, 3) == [0, 0, 0];
  }

  /** Main theorem: every pack is written as the header fields and then, field by field, its entries,
      bigrams and trigrams. */
  lemma EncodingHasLayout(c: Codec, p: Pack)
    ensures
      var payload := Layout(c, PayloadFields(p));
      EncodePack(c, p) == Layout(c, HeaderFields(c, |p.entries|, payload)) + payload
  {
    hide Layout;
    hide EncodeHeader;
    hide HeaderFields;
    EntriesLayout(c, p.entries);
    SectionLayout(c, p.bigrams);
    SectionLayout(c, p.trigrams);
    var es := Each(e => EntryFields(e), p.entries);
    LayoutConcat(c, es, SectionFields(p.bigrams));
    LayoutConcat(c, es + SectionFields(p.bigrams), SectionFields(p.trigrams));
    assert Layout(c, PayloadFields(p)) == EncodePayload(c, p);
    HeaderLayout(c, |p.entries|, EncodePayload(c, p));
  }

  // What may be in a pack

  /** The demands on a section of contexts of `k` entries, out of `n`. */
  ghost predicate LegalSection(cs: seq<Context>, n: nat, k: nat, most: nat) {
    && |cs| < 0x1_0000_0000
    && (forall i, j | 0 <= i < j < |cs| :: cs[i].key != cs[j].key)
    && forall i | 0 <= i < |cs| ::
         && |cs[i].key| == k && (forall d | 0 <= d < k :: cs[i].key[d] < n)
         && 1 <= |cs[i].predictions| <= most
         && LegalPredictions(cs[i].predictions, n)
  }

  ghost predicate LegalPredictions(ps: seq<Prediction>, n: nat) {
    && (forall a, b | 0 <= a < b < |ps| :: ps[a].next != ps[b].next)
    && forall a | 0 <= a < |ps| ::
         ps[a].next < n && 1 <= ps[a].count < 0x1_0000_0000_0000_0000 && ps[a].probability <= 1_000_000
  }

  lemma SectionIsLegal(cs: seq<Context>, n: nat, k: nat, most: nat)
    ensures SectionFits(cs, n, k, most) && |cs| < 0x1_0000_0000 <==> LegalSection(cs, n, k, most)
  {
    forall i | 0 <= i < |cs|
      ensures ContextFits(cs[i], n, k, most)
              <==> |cs[i].key| == k && (forall d | 0 <= d < k :: cs[i].key[d] < n)
                   && 1 <= |cs[i].predictions| <= most && LegalPredictions(cs[i].predictions, n)
    {
    }
  }

  /** Main theorem: the loader gives back a pack from its encoding if and only if there are fewer than
      2^32 entries, every text and list has a 16-bit length, the texts fit the store, and the
      sections are legal: at most 16 predictions after one word, at most 12 after two. */
  lemma LoadsExactly(c: Codec, p: Pack)
    requires c.Lawful() && |c.encode("ku-Latn")| <= 0xFFFF && |EncodePayload(c, p)| < 0x1_0000_0000_0000_0000
    ensures ParsePack(c, EncodePack(c, p)) == Ok(p)
            <==> |p.entries| < 0x1_0000_0000 && (forall i | 0 <= i < |p.entries| :: EntryFits(c, p.entries[i]))
                 && UsageFrom(c, NO_USAGE, p.entries).Fits()
                 && LegalSection(p.bigrams, |p.entries|, 1, 16) && LegalSection(p.trigrams, |p.entries|, 2, 12)
  {
    hide ParsePack;
    hide EncodePack;
    hide EncodePayload;
    hide EntryFits;
    hide UsageFrom;
    hide SectionFits;
    hide LegalSection;
    SectionIsLegal(p.bigrams, |p.entries|, 1, 16);
    SectionIsLegal(p.trigrams, |p.entries|, 2, 12);
    if PackFits(c, p) {
      LoadOfEncode(c, p);
    }
    if ParsePack(c, EncodePack(c, p)) == Ok(p) {
      LoadIsExact(c, EncodePack(c, p));
    }
  }

  // What is reported

  /** Damage to the first fields, in the order in which it is found. */
  lemma FirstFieldsDecide(c: Codec, bytes: seq<byte>)
    ensures |bytes| < 12 ==> ParsePack(c, bytes) == Err(TooShort)
    ensures |bytes| >= 12 && bytes[..4] != [0x4B, 0x52, 0x4D, 0x31] ==> ParsePack(c, bytes) == Err(InvalidMagicBytes)
    ensures |bytes| >= 12 && bytes[..4] == [0x4B, 0x52, 0x4D, 0x31] && bytes[4..8] != [4, 0, 0, 0] ==>
              ParsePack(c, bytes) == Err(UnsupportedVersion)
  {
    if |bytes| >= 12 {
      VersionBytes();
      FromLERoundTrip(bytes[4..8]);
    }
  }

  /** A pack of another language is refused as such, whatever follows its tag. */
  lemma OtherLanguageIsRefused(c: Codec, tag: Str, rest: seq<byte>)
    requires c.Lawful() && StrFits(c, tag) && |EncodeStr(c, tag) + rest| >= 4 && tag != "ku-Latn"
    ensures ParsePack(c, [0x4B, 0x52, 0x4D, 0x31] + ([4, 0, 0, 0] + (EncodeStr(c, tag) + rest)))
            == Err(IncompatibleLanguage)
  {
    hide ParseStr;
    hide EncodeStr;
    hide ParseBody;
    hide LE;
    hide FromLE;
    Bounds();
    var bytes := [0x4B, 0x52, 0x4D, 0x31] + ([4, 0, 0, 0] + (EncodeStr(c, tag) + rest));
    VersionBytes();
    LERoundTrip(PACK_VERSION, 4);
    assert bytes[..4] == MAGIC_BYTES;
    assert bytes[4..8] == LE(PACK_VERSION, 4);
    assert bytes[8..] == EncodeStr(c, tag) + rest;
    ParseStrOfEncode(c, tag, rest);
  }

  /** A payload exchanged for another one behind the same header is refused: as a payload of the wrong
      length, or by its digest. */
  lemma ExchangedPayloadIsRefused(c: Codec, count: nat, payload: seq<byte>, other: seq<byte>)
    requires c.Lawful() && StrFits(c, LANGUAGE_TAG)
    requires count < 0x1_0000_0000 && |payload| < 0x1_0000_0000_0000_0000
    ensures |other| != |payload| ==> ParsePack(c, EncodeHeader(c, count, payload) + other) == Err(InvalidPayload)
    ensures |other| == |payload| && c.digest(other) != c.digest(payload) ==>
              ParsePack(c, EncodeHeader(c, count, payload) + other) == Err(ChecksumMismatch)
  {
    hide ParsePayload;
    hide ParseStr;
    hide EncodeStr;
    hide ParseBody;
    hide LE;
    hide FromLE;
    Bounds();
    var b1 := LE(count, 4) + (LE(|payload|, 8) + (c.digest(payload) + other));
    var b0 := EncodeStr(c, LANGUAGE_TAG) + b1;
    var bytes := EncodeHeader(c, count, payload) + other;
    assert bytes == MAGIC_BYTES + (LE(PACK_VERSION, 4) + b0);
    assert bytes[..4] == MAGIC_BYTES;
    assert bytes[4..8] == LE(PACK_VERSION, 4);
    assert bytes[8..] == b0;
    LERoundTrip(PACK_VERSION, 4);
    ParseStrOfEncode(c, LANGUAGE_TAG, b1);
    ExchangedBody(c, count, payload, other);
  }

  lemma ExchangedBody(c: Codec, count: nat, payload: seq<byte>, other: seq<byte>)
    requires c.Lawful() && count < 0x1_0000_0000 && |payload| < 0x1_0000_0000_0000_0000
    ensures
      var r := ParseBody(c, LE(count, 4) + (LE(|payload|, 8) + (c.digest(payload) + other)));
      && (|other| != |payload| ==> r == Err(InvalidPayload))
      && (|other| == |payload| && c.digest(other) != c.digest(payload) ==> r == Err(ChecksumMismatch))
  {
    hide ParsePayload;
    hide ParseNum;
    Bounds();
    var b3 := c.digest(payload) + other;
    var b2 := LE(|payload|, 8) + b3;
    ParseNumOfLE(count, 4, b2);
    ParseNumOfLE(|payload|, 8, b3);
    assert b3[..32] == c.digest(payload) && b3[32..] == other;
  }
}
