/** Binary pack format 4: what a pack encodes to, and what the loader accepts. Encoding and
    parsing are each other's inverses. */
module PackFormat {
  import opened Wrappers
  import opened Orders
  import opened Lexicon

  const PACK_VERSION := 4
  const MAX_BIGRAM_PREDICTIONS := 16
  const MAX_TRIGRAM_PREDICTIONS := 12
  const PROBABILITY_SCALE := 1_000_000
  const MAGIC_BYTES: seq<byte> := [75, 82, 77, 49] // KRM1
  const LANGUAGE_TAG: Str := "ku-Latn"
  const U16_MAX := 0xFFFF
  const MIN_ENCODED_ENTRY_BYTES := 42

  datatype LoadError =
    | TooShort
    | InvalidMagicBytes
    | UnsupportedVersion
    | IncompatibleLanguage
    | TruncatedPayload
    | ChecksumMismatch
    | InvalidPayload

  datatype Prediction = Prediction(next: nat, count: nat, probability: nat)

  /** The predictions of one context: one previous entry for bigrams, two for trigrams. */
  datatype Context = Context(key: seq<nat>, predictions: seq<Prediction>)

  datatype Pack = Pack(entries: seq<LexiconEntry>, bigrams: seq<Context>, trigrams: seq<Context>)

  // Little-endian integers

  function Bound(width: nat): nat {
    if width == 0 then 1 else 256 * Bound(width - 1)
  }

  function LE(n: nat, width: nat): (r: seq<byte>)
    ensures |r| == width
  {
    if width == 0 then [] else [n % 256] + LE(n / 256, width - 1)
  }

  function FromLE(b: seq<byte>): nat {
    if b == [] then 0 else b[0] + 256 * FromLE(b[1..])
  }

  lemma {:induction false} LERoundTrip(n: nat, width: nat)
    requires n < Bound(width)
    ensures FromLE(LE(n, width)) == n
  {
    if width > 0 {
      LERoundTrip(n / 256, width - 1);
      assert LE(n, width)[1..] == LE(n / 256, width - 1);
    }
  }

  lemma {:induction false} FromLERoundTrip(b: seq<byte>)
    ensures FromLE(b) < Bound(|b|) && LE(FromLE(b), |b|) == b
  {
    if b != [] {
      FromLERoundTrip(b[1..]);
      LowByte(b[0], FromLE(b[1..]));
      assert b == [b[0]] + b[1..];
    }
  }

  lemma LowByte(x: byte, rest: nat)
    ensures (x + 256 * rest) % 256 == x && (x + 256 * rest) / 256 == rest
  {
  }

  lemma Bounds()
    ensures Bound(2) == 0x1_0000 && Bound(4) == 0x1_0000_0000 && Bound(8) == 0x1_0000_0000_0000_0000
  {
    assert Bound(0) == 1 && Bound(1) == 256 && Bound(2) == 0x1_0000 && Bound(3) == 0x100_0000;
    assert Bound(4) == 0x1_0000_0000;
    assert Bound(5) == 0x100_0000_0000 && Bound(6) == 0x1_0000_0000_0000;
    assert Bound(7) == 0x100_0000_0000_0000;
  }

  type Parsed<T> = Result<(T, seq<byte>), LoadError>

  /** An unsigned integer of `width` bytes, and the bytes after it. */
  function ParseNum(b: seq<byte>, width: nat): Parsed<nat> {
    if |b| < width then Err(TruncatedPayload) else Ok((FromLE(b[..width]), b[width..]))
  }

  lemma ParseNumOfLE(n: nat, width: nat, rest: seq<byte>)
    requires n < Bound(width)
    ensures ParseNum(LE(n, width) + rest, width) == Ok((n, rest))
  {
    hide LE;
    hide FromLE;
    hide Bound;
    LERoundTrip(n, width);
    assert (LE(n, width) + rest)[..width] == LE(n, width);
    assert (LE(n, width) + rest)[width..] == rest;
  }

  lemma ParseNumExact(b: seq<byte>, width: nat)
    requires ParseNum(b, width).Ok?
    ensures
      var (n, rest) := ParseNum(b, width).value;
      n < Bound(width) && b == LE(n, width) + rest
  {
    hide LE;
    hide FromLE;
    hide Bound;
    FromLERoundTrip(b[..width]);
  }

  // Strings

  function EncodeStr(c: Codec, s: Str): seq<byte> {
    LE(|c.encode(s)|, 2) + c.encode(s)
  }

  predicate StrFits(c: Codec, s: Str) {
    |c.encode(s)| <= U16_MAX
  }

  function ParseStr(c: Codec, b: seq<byte>): Parsed<Str> {
    var (len, rest) :- ParseNum(b, 2);
    if len > |rest| then Err(TruncatedPayload)
    else
      var s := c.decode(rest[..len]);
      if s.None? then Err(InvalidPayload) else Ok((s.value, rest[len..]))
  }

  lemma ParseStrOfEncode(c: Codec, s: Str, rest: seq<byte>)
    requires c.Lawful() && StrFits(c, s)
    ensures ParseStr(c, EncodeStr(c, s) + rest) == Ok((s, rest))
  {
    Bounds();
    var bytes := c.encode(s);
    assert EncodeStr(c, s) + rest == LE(|bytes|, 2) + (bytes + rest);
    ParseNumOfLE(|bytes|, 2, bytes + rest);
    assert (bytes + rest)[..|bytes|] == bytes && (bytes + rest)[|bytes|..] == rest;
  }

  lemma ParseStrExact(c: Codec, b: seq<byte>)
    requires c.Lawful() && ParseStr(c, b).Ok?
    ensures
      var (s, rest) := ParseStr(c, b).value;
      StrFits(c, s) && b == EncodeStr(c, s) + rest
  {
    Bounds();
    ParseNumExact(b, 2);
    var (len, rest) := ParseNum(b, 2).value;
    assert rest == rest[..len] + rest[len..];
  }

  function EncodeStrs(c: Codec, ss: seq<Str>): seq<byte> {
    if ss == [] then [] else EncodeStr(c, ss[0]) + EncodeStrs(c, ss[1..])
  }

  predicate StrsFit(c: Codec, ss: seq<Str>) {
    |ss| <= U16_MAX && forall i | 0 <= i < |ss| :: StrFits(c, ss[i])
  }

  function ParseStrs(c: Codec, b: seq<byte>, n: nat): Parsed<seq<Str>> {
    if n == 0 then Ok(([], b))
    else
      var (s, b1) :- ParseStr(c, b);
      var (ss, b2) :- ParseStrs(c, b1, n - 1);
      Ok(([s] + ss, b2))
  }

  lemma {:induction false} ParseStrsOfEncode(c: Codec, ss: seq<Str>, rest: seq<byte>)
    requires c.Lawful() && forall i | 0 <= i < |ss| :: StrFits(c, ss[i])
    ensures ParseStrs(c, EncodeStrs(c, ss) + rest, |ss|) == Ok((ss, rest))
  {
    if ss == [] {
      assert EncodeStrs(c, ss) + rest == rest;
    } else {
      assert EncodeStrs(c, ss) + rest == EncodeStr(c, ss[0]) + (EncodeStrs(c, ss[1..]) + rest);
      ParseStrOfEncode(c, ss[0], EncodeStrs(c, ss[1..]) + rest);
      ParseStrsOfEncode(c, ss[1..], rest);
      assert ss == [ss[0]] + ss[1..];
    }
  }

  lemma {:induction false} ParseStrsExact(c: Codec, b: seq<byte>, n: nat)
    requires c.Lawful() && ParseStrs(c, b, n).Ok?
    ensures
      var (ss, rest) := ParseStrs(c, b, n).value;
      |ss| == n && (forall i | 0 <= i < |ss| :: StrFits(c, ss[i])) && b == EncodeStrs(c, ss) + rest
    decreases n
  {
    hide ParseStr;
    hide EncodeStr;
    hide StrFits;
    if n > 0 {
      var (s, b1) := ParseStr(c, b).value;
      var (ss, b2) := ParseStrs(c, b1, n - 1).value;
      ParseStrExact(c, b);
      ParseStrsExact(c, b1, n - 1);
      assert ([s] + ss)[1..] == ss;
      Associate(EncodeStr(c, s), EncodeStrs(c, ss), b2);
    }
  }

  lemma {:induction false} EncodeStrsAppend(c: Codec, ss: seq<Str>, s: Str)
    ensures EncodeStrs(c, ss + [s]) == EncodeStrs(c, ss) + EncodeStr(c, s)
  {
    hide EncodeStr;
    if ss == [] {
      assert EncodeStrs(c, [s]) == EncodeStr(c, s) + EncodeStrs(c, []);
    } else {
      EncodeStrsAppend(c, ss[1..], s);
      assert (ss + [s])[1..] == ss[1..] + [s];
      assert EncodeStrs(c, ss + [s]) == EncodeStr(c, ss[0]) + EncodeStrs(c, ss[1..] + [s]);
    }
  }

  /** A list with its 16-bit length. */
  function EncodeList(c: Codec, ss: seq<Str>): seq<byte> {
    LE(|ss|, 2) + EncodeStrs(c, ss)
  }

  function ParseList(c: Codec, b: seq<byte>): Parsed<seq<Str>> {
    var (n, b1) :- ParseNum(b, 2);
    ParseStrs(c, b1, n)
  }

  lemma ParseListOfEncode(c: Codec, ss: seq<Str>, rest: seq<byte>)
    requires c.Lawful() && StrsFit(c, ss)
    ensures ParseList(c, EncodeList(c, ss) + rest) == Ok((ss, rest))
  {
    Bounds();
    assert EncodeList(c, ss) + rest == LE(|ss|, 2) + (EncodeStrs(c, ss) + rest);
    ParseNumOfLE(|ss|, 2, EncodeStrs(c, ss) + rest);
    ParseStrsOfEncode(c, ss, rest);
  }

  lemma ParseListExact(c: Codec, b: seq<byte>)
    requires c.Lawful() && ParseList(c, b).Ok?
    ensures
      var (ss, rest) := ParseList(c, b).value;
      StrsFit(c, ss) && b == EncodeList(c, ss) + rest
  {
    Bounds();
    ParseNumExact(b, 2);
    var (n, b1) := ParseNum(b, 2).value;
    ParseStrsExact(c, b1, n);
    var (ss, rest) := ParseStrs(c, b1, n).value;
    assert b == LE(n, 2) + (EncodeStrs(c, ss) + rest) == EncodeList(c, ss) + rest;
  }

  // Lexicon entries

  lemma Associate(a: seq<byte>, b: seq<byte>, rest: seq<byte>)
    ensures (a + b) + rest == a + (b + rest)
  {
  }

  function EncodeMetadata(m: FrequencyMetadata): seq<byte> {
    LE(m.tokenCount, 8) + LE(m.documentCount, 8) + LE(m.zipfMilli, 4)
  }

  function ParseMetadata(b: seq<byte>): Parsed<FrequencyMetadata> {
    FromLERoundTrip(b[..if |b| < 8 then 0 else 8]);
    if |b| < 20 then Err(TruncatedPayload)
    else
      FromLERoundTrip(b[8..16]);
      FromLERoundTrip(b[16..20]);
      Bounds();
      Ok((FrequencyMetadata(FromLE(b[..8]), FromLE(b[8..16]), FromLE(b[16..20])), b[20..]))
  }

  lemma ParseMetadataOfEncode(m: FrequencyMetadata, rest: seq<byte>)
    ensures ParseMetadata(EncodeMetadata(m) + rest) == Ok((m, rest))
  {
    hide LE;
    hide FromLE;
    hide Bound;
    Bounds();
    LERoundTrip(m.tokenCount, 8);
    LERoundTrip(m.documentCount, 8);
    LERoundTrip(m.zipfMilli, 4);
    var b := EncodeMetadata(m) + rest;
    assert b[..8] == LE(m.tokenCount, 8) && b[8..16] == LE(m.documentCount, 8);
    assert b[16..20] == LE(m.zipfMilli, 4) && b[20..] == rest;
  }

  lemma ParseMetadataExact(b: seq<byte>)
    requires ParseMetadata(b).Ok?
    ensures
      var (m, rest) := ParseMetadata(b).value;
      b == EncodeMetadata(m) + rest
  {
    hide LE;
    hide FromLE;
    hide Bound;
    Bounds();
    FromLERoundTrip(b[..8]);
    FromLERoundTrip(b[8..16]);
    FromLERoundTrip(b[16..20]);
  }

  function EncodeEntry(c: Codec, e: LexiconEntry): seq<byte> {
    EncodeStrs(c, [e.word, e.lemmaForm, e.normalized, e.partOfSpeech])
    + (LE(e.frequency, 8)
       + (EncodeStr(c, e.status)
          + (EncodeList(c, e.regions)
             + (EncodeList(c, e.sources)
                + EncodeMetadata(e.metadata)))))
  }

  predicate EntryFits(c: Codec, e: LexiconEntry) {
    && StrFits(c, e.word) && StrFits(c, e.lemmaForm) && StrFits(c, e.normalized) && StrFits(c, e.partOfSpeech)
    && StrFits(c, e.status) && StrsFit(c, e.regions) && StrsFit(c, e.sources)
  }

  function ParseEntry(c: Codec, b: seq<byte>): Parsed<LexiconEntry> {
    var (forms, b1) :- ParseForms(c, b);
    var (frequency, b2) :- ParseU64(b1);
    var (status, b3) :- ParseStr(c, b2);
    var (regions, b4) :- ParseList(c, b3);
    var (sources, b5) :- ParseList(c, b4);
    var (metadata, b6) :- ParseMetadata(b5);
    Ok((LexiconEntry(forms.0, forms.2, forms.1, forms.3, frequency, regions, status, sources, metadata), b6))
  }

  /** Word, lemma, normalized form and part of speech, in this order. */
  function ParseForms(c: Codec, b: seq<byte>): Parsed<(Str, Str, Str, Str)> {
    var (word, b1) :- ParseStr(c, b);
    var (lemmaForm, b2) :- ParseStr(c, b1);
    var (normalized, b3) :- ParseStr(c, b2);
    var (partOfSpeech, b4) :- ParseStr(c, b3);
    Ok(((word, lemmaForm, normalized, partOfSpeech), b4))
  }

  function ParseU64(b: seq<byte>): Parsed<u64> {
    var (n, rest) :- ParseNum(b, 8);
    FromLERoundTrip(b[..8]);
    Bounds();
    Ok((n, rest))
  }

  lemma EncodeFourStrs(c: Codec, w: Str, x: Str, y: Str, z: Str, rest: seq<byte>)
    ensures EncodeStrs(c, [w, x, y, z]) + rest
            == EncodeStr(c, w) + (EncodeStr(c, x) + (EncodeStr(c, y) + (EncodeStr(c, z) + rest)))
  {
    hide EncodeStr;
    var four, three, two, one := [w, x, y, z], [x, y, z], [y, z], [z];
    assert four[1..] == three && three[1..] == two && two[1..] == one && one[1..] == [];
    assert EncodeStrs(c, []) == [];
    assert EncodeStrs(c, one) == EncodeStr(c, z) + [];
    assert EncodeStrs(c, two) == EncodeStr(c, y) + EncodeStrs(c, one);
    assert EncodeStrs(c, three) == EncodeStr(c, x) + EncodeStrs(c, two);
    assert EncodeStrs(c, four) == EncodeStr(c, w) + EncodeStrs(c, three);
    Associate(EncodeStr(c, w), EncodeStrs(c, three), rest);
    Associate(EncodeStr(c, x), EncodeStrs(c, two), rest);
    Associate(EncodeStr(c, y), EncodeStrs(c, one), rest);
  }

  lemma ParseFormsOfEncode(c: Codec, w: Str, x: Str, y: Str, z: Str, rest: seq<byte>)
    requires c.Lawful() && StrFits(c, w) && StrFits(c, x) && StrFits(c, y) && StrFits(c, z)
    ensures ParseForms(c, EncodeStrs(c, [w, x, y, z]) + rest) == Ok(((w, x, y, z), rest))
  {
    hide ParseStr;
    hide EncodeStr;
    EncodeFourStrs(c, w, x, y, z, rest);
    var b4 := EncodeStr(c, z) + rest;
    var b3 := EncodeStr(c, y) + b4;
    var b2 := EncodeStr(c, x) + b3;
    ParseStrOfEncode(c, w, b2);
    ParseStrOfEncode(c, x, b3);
    ParseStrOfEncode(c, y, b4);
    ParseStrOfEncode(c, z, rest);
  }

  lemma ParseFormsExact(c: Codec, b: seq<byte>)
    requires c.Lawful() && ParseForms(c, b).Ok?
    ensures
      var ((w, x, y, z), rest) := ParseForms(c, b).value;
      && StrFits(c, w) && StrFits(c, x) && StrFits(c, y) && StrFits(c, z)
      && b == EncodeStrs(c, [w, x, y, z]) + rest
  {
    hide ParseStr;
    hide EncodeStr;
    ParseStrExact(c, b);
    var (w, b1) := ParseStr(c, b).value;
    ParseStrExact(c, b1);
    var (x, b2) := ParseStr(c, b1).value;
    ParseStrExact(c, b2);
    var (y, b3) := ParseStr(c, b2).value;
    ParseStrExact(c, b3);
    var (z, b4) := ParseStr(c, b3).value;
    EncodeFourStrs(c, w, x, y, z, b4);
  }

  /** The entry's bytes followed by others, field after field. */
  function EntryOnto(c: Codec, e: LexiconEntry, rest: seq<byte>): seq<byte> {
    EncodeStrs(c, [e.word, e.lemmaForm, e.normalized, e.partOfSpeech])
    + (LE(e.frequency, 8)
       + (EncodeStr(c, e.status)
          + (EncodeList(c, e.regions)
             + (EncodeList(c, e.sources)
                + (EncodeMetadata(e.metadata) + rest)))))
  }

  lemma EntryOntoIsEncode(c: Codec, e: LexiconEntry, rest: seq<byte>)
    ensures EncodeEntry(c, e) + rest == EntryOnto(c, e, rest)
  {
    hide EncodeStrs;
    hide EncodeStr;
    hide EncodeList;
    hide EncodeMetadata;
    hide LE;
    var m := EncodeMetadata(e.metadata);
    var s := EncodeList(c, e.sources);
    var r := EncodeList(c, e.regions);
    var t := EncodeStr(c, e.status);
    var f := LE(e.frequency, 8);
    Associate(s, m, rest);
    Associate(r, s + m, rest);
    Associate(t, r + (s + m), rest);
    Associate(f, t + (r + (s + m)), rest);
    Associate(EncodeStrs(c, [e.word, e.lemmaForm, e.normalized, e.partOfSpeech]), f + (t + (r + (s + m))), rest);
  }

  lemma ParseEntryOfEncode(c: Codec, e: LexiconEntry, rest: seq<byte>)
    requires c.Lawful() && EntryFits(c, e)
    ensures ParseEntry(c, EncodeEntry(c, e) + rest) == Ok((e, rest))
  {
    hide ParseStr;
    hide ParseList;
    hide ParseMetadata;
    hide ParseForms;
    hide EncodeStrs;
    hide EncodeStr;
    hide EncodeList;
    hide EncodeMetadata;
    EntryOntoIsEncode(c, e, rest);
    var b5 := EncodeMetadata(e.metadata) + rest;
    var b4 := EncodeList(c, e.sources) + b5;
    var b3 := EncodeList(c, e.regions) + b4;
    var b2 := EncodeStr(c, e.status) + b3;
    var b1 := LE(e.frequency, 8) + b2;
    Bounds();
    ParseFormsOfEncode(c, e.word, e.lemmaForm, e.normalized, e.partOfSpeech, b1);
    ParseNumOfLE(e.frequency, 8, b2);
    ParseStrOfEncode(c, e.status, b3);
    ParseListOfEncode(c, e.regions, b4);
    ParseListOfEncode(c, e.sources, b5);
    ParseMetadataOfEncode(e.metadata, rest);
  }

  lemma ParseEntryExact(c: Codec, b: seq<byte>)
    requires c.Lawful() && ParseEntry(c, b).Ok?
    ensures
      var (e, rest) := ParseEntry(c, b).value;
      EntryFits(c, e) && b == EncodeEntry(c, e) + rest
  {
    hide ParseStr;
    hide ParseList;
    hide ParseMetadata;
    hide ParseForms;
    hide EncodeStrs;
    hide EncodeStr;
    hide EncodeList;
    hide EncodeMetadata;
    hide LE;
    ParseFormsExact(c, b);
    var (_, b1) := ParseForms(c, b).value;
    ParseNumExact(b1, 8);
    var (_, b2) := ParseNum(b1, 8).value;
    ParseStrExact(c, b2);
    var (_, b3) := ParseStr(c, b2).value;
    ParseListExact(c, b3);
    var (_, b4) := ParseList(c, b3).value;
    ParseListExact(c, b4);
    var (_, b5) := ParseList(c, b4).value;
    ParseMetadataExact(b5);
    var (e, rest) := ParseEntry(c, b).value;
    EntryOntoIsEncode(c, e, rest);
  }

  function EncodeEntries(c: Codec, es: seq<LexiconEntry>): seq<byte> {
    if es == [] then [] else EncodeEntry(c, es[0]) + EncodeEntries(c, es[1..])
  }

  lemma {:induction false} EncodeEntriesAppend(c: Codec, es: seq<LexiconEntry>, e: LexiconEntry)
    ensures EncodeEntries(c, es + [e]) == EncodeEntries(c, es) + EncodeEntry(c, e)
  {
    hide EncodeEntry;
    if es == [] {
      assert EncodeEntries(c, [e]) == EncodeEntry(c, e) + EncodeEntries(c, []);
    } else {
      EncodeEntriesAppend(c, es[1..], e);
      assert (es + [e])[1..] == es[1..] + [e];
      assert EncodeEntries(c, es + [e]) == EncodeEntry(c, es[0]) + EncodeEntries(c, es[1..] + [e]);
    }
  }

  /** `n` entries, each accepted only while the store's 32-bit quantities still fit. */
  function ParseEntries(c: Codec, b: seq<byte>, n: nat, usage: Usage): Parsed<seq<LexiconEntry>>
    decreases n
  {
    if n == 0 then Ok(([], b))
    else
      var (e, b1) :- ParseEntry(c, b);
      var usage' := usage.Add(c, e);
      if !usage'.Fits() then Err(InvalidPayload)
      else
        var (es, b2) :- ParseEntries(c, b1, n - 1, usage');
        Ok(([e] + es, b2))
  }

  lemma {:induction false} ParseEntriesOfEncode(c: Codec, es: seq<LexiconEntry>, usage: Usage, rest: seq<byte>)
    requires c.Lawful() && forall i | 0 <= i < |es| :: EntryFits(c, es[i])
    requires UsageFrom(c, usage, es).Fits()
    ensures ParseEntries(c, EncodeEntries(c, es) + rest, |es|, usage) == Ok((es, rest))
  {
    hide ParseEntry;
    hide EncodeEntry;
    hide EntryFits;
    hide Usage.Add;
    hide Usage.Fits;
    if es == [] {
      assert EncodeEntries(c, es) + rest == rest;
    } else {
      var more := EncodeEntries(c, es[1..]) + rest;
      Associate(EncodeEntry(c, es[0]), EncodeEntries(c, es[1..]), rest);
      ParseEntryOfEncode(c, es[0], more);
      UsageGrows(c, usage.Add(c, es[0]), es[1..]);
      ParseEntriesOfEncode(c, es[1..], usage.Add(c, es[0]), rest);
      assert es == [es[0]] + es[1..];
    }
  }

  /** Entries whose text or lists outgrow the store's 32-bit quantities are refused. */
  lemma {:induction false} ParseEntriesOverflow(c: Codec, es: seq<LexiconEntry>, usage: Usage, rest: seq<byte>)
    requires c.Lawful() && forall i | 0 <= i < |es| :: EntryFits(c, es[i])
    requires usage.Fits() && !UsageFrom(c, usage, es).Fits()
    ensures ParseEntries(c, EncodeEntries(c, es) + rest, |es|, usage) == Err(InvalidPayload)
  {
    hide ParseEntry;
    hide EncodeEntry;
    hide EntryFits;
    hide Usage.Add;
    hide Usage.Fits;
    var more := EncodeEntries(c, es[1..]) + rest;
    Associate(EncodeEntry(c, es[0]), EncodeEntries(c, es[1..]), rest);
    ParseEntryOfEncode(c, es[0], more);
    if usage.Add(c, es[0]).Fits() {
      ParseEntriesOverflow(c, es[1..], usage.Add(c, es[0]), rest);
    }
  }

  lemma {:induction false} ParseEntriesExact(c: Codec, b: seq<byte>, n: nat, usage: Usage)
    requires c.Lawful() && ParseEntries(c, b, n, usage).Ok? && usage.Fits()
    ensures
      var (es, rest) := ParseEntries(c, b, n, usage).value;
      && |es| == n && (forall i | 0 <= i < |es| :: EntryFits(c, es[i]))
      && UsageFrom(c, usage, es).Fits()
      && b == EncodeEntries(c, es) + rest
    decreases n
  {
    hide ParseEntry;
    hide EncodeEntry;
    hide EntryFits;
    hide Usage.Add;
    hide Usage.Fits;
    if n > 0 {
      ParseEntryExact(c, b);
      var (e, b1) := ParseEntry(c, b).value;
      ParseEntriesExact(c, b1, n - 1, usage.Add(c, e));
      var (es, b2) := ParseEntries(c, b1, n - 1, usage.Add(c, e)).value;
      assert ([e] + es)[0] == e && ([e] + es)[1..] == es;
      Associate(EncodeEntry(c, e), EncodeEntries(c, es), b2);
    }
  }

  // Predictions

  function EncodePrediction(p: Prediction): seq<byte> {
    LE(p.next, 4) + LE(p.count, 8) + LE(p.probability, 4)
  }

  predicate PredictionFits(p: Prediction, n: nat) {
    p.next < n && 0 < p.count < 0x1_0000_0000_0000_0000 && p.probability <= PROBABILITY_SCALE
  }

  function ParsePrediction(b: seq<byte>, n: nat, seen: set<nat>): Parsed<Prediction> {
    if |b| < 16 then Err(TruncatedPayload)
    else
      var p := Prediction(FromLE(b[..4]), FromLE(b[4..12]), FromLE(b[12..16]));
      if p.next >= n || p.next in seen || p.count == 0 || p.probability > PROBABILITY_SCALE then Err(InvalidPayload)
      else Ok((p, b[16..]))
  }

  lemma ParsePredictionOfEncode(p: Prediction, n: nat, seen: set<nat>, rest: seq<byte>)
    requires PredictionFits(p, n) && p.next !in seen && n <= 0x1_0000_0000
    ensures ParsePrediction(EncodePrediction(p) + rest, n, seen) == Ok((p, rest))
  {
    hide LE;
    hide FromLE;
    hide Bound;
    Bounds();
    LERoundTrip(p.next, 4);
    LERoundTrip(p.count, 8);
    LERoundTrip(p.probability, 4);
    var b := EncodePrediction(p) + rest;
    assert b[..4] == LE(p.next, 4) && b[4..12] == LE(p.count, 8);
    assert b[12..16] == LE(p.probability, 4) && b[16..] == rest;
  }

  lemma ParsePredictionExact(b: seq<byte>, n: nat, seen: set<nat>)
    requires ParsePrediction(b, n, seen).Ok?
    ensures
      var (p, rest) := ParsePrediction(b, n, seen).value;
      PredictionFits(p, n) && p.next !in seen && b == EncodePrediction(p) + rest
  {
    hide LE;
    hide FromLE;
    hide Bound;
    Bounds();
    FromLERoundTrip(b[..4]);
    FromLERoundTrip(b[4..12]);
    FromLERoundTrip(b[12..16]);
  }

  function EncodePredictions(ps: seq<Prediction>): seq<byte> {
    if ps == [] then [] else EncodePrediction(ps[0]) + EncodePredictions(ps[1..])
  }

  lemma {:induction false} EncodePredictionsAppend(ps: seq<Prediction>, p: Prediction)
    ensures EncodePredictions(ps + [p]) == EncodePredictions(ps) + EncodePrediction(p)
  {
    hide EncodePrediction;
    if ps == [] {
      assert EncodePredictions([p]) == EncodePrediction(p) + EncodePredictions([]);
    } else {
      EncodePredictionsAppend(ps[1..], p);
      assert (ps + [p])[1..] == ps[1..] + [p];
      assert EncodePredictions(ps + [p]) == EncodePrediction(ps[0]) + EncodePredictions(ps[1..] + [p]);
    }
  }

  /** No next word repeats, and none was seen before. */
  ghost predicate FreshNexts(ps: seq<Prediction>, seen: set<nat>) {
    && (forall i | 0 <= i < |ps| :: ps[i].next !in seen)
    && (forall i, j | 0 <= i < j < |ps| :: ps[i].next != ps[j].next)
  }

  function ParsePredictions(b: seq<byte>, n: nat, m: nat, seen: set<nat>): Parsed<seq<Prediction>>
    decreases m
  {
    if m == 0 then Ok(([], b))
    else
      var (p, b1) :- ParsePrediction(b, n, seen);
      var (ps, b2) :- ParsePredictions(b1, n, m - 1, seen + {p.next});
      Ok(([p] + ps, b2))
  }

  lemma {:induction false} ParsePredictionsOfEncode(ps: seq<Prediction>, n: nat, seen: set<nat>, rest: seq<byte>)
    requires n <= 0x1_0000_0000 && FreshNexts(ps, seen) && forall i | 0 <= i < |ps| :: PredictionFits(ps[i], n)
    ensures ParsePredictions(EncodePredictions(ps) + rest, n, |ps|, seen) == Ok((ps, rest))
    decreases |ps|
  {
    hide ParsePrediction;
    hide EncodePrediction;
    hide PredictionFits;
    if ps == [] {
      assert EncodePredictions(ps) + rest == rest;
    } else {
      Associate(EncodePrediction(ps[0]), EncodePredictions(ps[1..]), rest);
      ParsePredictionOfEncode(ps[0], n, seen, EncodePredictions(ps[1..]) + rest);
      ParsePredictionsOfEncode(ps[1..], n, seen + {ps[0].next}, rest);
      assert ps == [ps[0]] + ps[1..];
    }
  }

  lemma {:induction false} ParsePredictionsExact(b: seq<byte>, n: nat, m: nat, seen: set<nat>)
    requires ParsePredictions(b, n, m, seen).Ok?
    ensures
      var (ps, rest) := ParsePredictions(b, n, m, seen).value;
      && |ps| == m && FreshNexts(ps, seen) && (forall i | 0 <= i < |ps| :: PredictionFits(ps[i], n))
      && b == EncodePredictions(ps) + rest
    decreases m
  {
    hide ParsePrediction;
    hide EncodePrediction;
    hide PredictionFits;
    if m > 0 {
      ParsePredictionExact(b, n, seen);
      var (p, b1) := ParsePrediction(b, n, seen).value;
      ParsePredictionsExact(b1, n, m - 1, seen + {p.next});
      var (ps, b2) := ParsePredictions(b1, n, m - 1, seen + {p.next}).value;
      assert ([p] + ps)[0] == p && ([p] + ps)[1..] == ps;
      assert forall i | 0 <= i < |ps| :: ps[i].next !in seen + {p.next};
      Associate(EncodePrediction(p), EncodePredictions(ps), b2);
    }
  }

  // Contexts: keys of `k` lexicon indices, 1 for bigrams and 2 for trigrams

  function EncodeKey(key: seq<nat>): seq<byte> {
    if key == [] then [] else LE(key[0], 4) + EncodeKey(key[1..])
  }

  function ParseKey(b: seq<byte>, k: nat): Parsed<seq<nat>> {
    if k == 0 then Ok(([], b))
    else
      var (x, b1) :- ParseNum(b, 4);
      var (key, b2) :- ParseKey(b1, k - 1);
      Ok(([x] + key, b2))
  }

  predicate KeyBelow(key: seq<nat>, n: nat) {
    forall i | 0 <= i < |key| :: key[i] < n
  }

  lemma {:induction false} ParseKeyOfEncode(key: seq<nat>, rest: seq<byte>)
    requires KeyBelow(key, 0x1_0000_0000)
    ensures ParseKey(EncodeKey(key) + rest, |key|) == Ok((key, rest))
    ensures |EncodeKey(key)| == 4 * |key|
  {
    if key == [] {
      assert EncodeKey(key) + rest == rest;
    } else {
      Bounds();
      Associate(LE(key[0], 4), EncodeKey(key[1..]), rest);
      ParseNumOfLE(key[0], 4, EncodeKey(key[1..]) + rest);
      ParseKeyOfEncode(key[1..], rest);
      assert key == [key[0]] + key[1..];
    }
  }

  lemma {:induction false} ParseKeyExact(b: seq<byte>, k: nat)
    requires ParseKey(b, k).Ok?
    ensures
      var (key, rest) := ParseKey(b, k).value;
      |key| == k && b == EncodeKey(key) + rest
  {
    if k > 0 {
      ParseNumExact(b, 4);
      var (x, b1) := ParseNum(b, 4).value;
      ParseKeyExact(b1, k - 1);
      var (key, b2) := ParseKey(b1, k - 1).value;
      assert ([x] + key)[0] == x && ([x] + key)[1..] == key;
      Associate(LE(x, 4), EncodeKey(key), b2);
    }
  }

  function EncodeContext(cx: Context): seq<byte> {
    EncodeKey(cx.key) + (LE(|cx.predictions|, 2) + EncodePredictions(cx.predictions))
  }

  /** What the loader demands of one context in a lexicon of `n` entries. */
  ghost predicate ContextFits(cx: Context, n: nat, k: nat, max: nat) {
    && |cx.key| == k && KeyBelow(cx.key, n)
    && 1 <= |cx.predictions| <= max
    && FreshNexts(cx.predictions, {})
    && forall i | 0 <= i < |cx.predictions| :: PredictionFits(cx.predictions[i], n)
  }

  function ParseContext(b: seq<byte>, n: nat, k: nat, max: nat, seen: set<seq<nat>>): Parsed<Context> {
    if |b| < 4 * k + 2 then Err(TruncatedPayload)
    else
      var (key, b1) :- ParseKey(b, k);
      if !KeyBelow(key, n) || key in seen then Err(InvalidPayload)
      else
        var (m, b2) :- ParseNum(b1, 2);
        if m == 0 || m > max then Err(InvalidPayload)
        else
          var (ps, b3) :- ParsePredictions(b2, n, m, {});
          Ok((Context(key, ps), b3))
  }

  lemma ParseContextOfEncode(cx: Context, n: nat, k: nat, max: nat, seen: set<seq<nat>>, rest: seq<byte>)
    requires ContextFits(cx, n, k, max) && cx.key !in seen && n <= 0x1_0000_0000 && max <= U16_MAX
    ensures ParseContext(EncodeContext(cx) + rest, n, k, max, seen) == Ok((cx, rest))
  {
    hide ParsePredictions;
    hide EncodePredictions;
    hide ParseKey;
    hide EncodeKey;
    hide PredictionFits;
    hide FreshNexts;
    Bounds();
    var ps := EncodePredictions(cx.predictions);
    var m := LE(|cx.predictions|, 2);
    Associate(EncodeKey(cx.key), m + ps, rest);
    Associate(m, ps, rest);
    ParseKeyOfEncode(cx.key, m + (ps + rest));
    ParseNumOfLE(|cx.predictions|, 2, ps + rest);
    ParsePredictionsOfEncode(cx.predictions, n, {}, rest);
  }

  lemma ParseContextExact(b: seq<byte>, n: nat, k: nat, max: nat, seen: set<seq<nat>>)
    requires ParseContext(b, n, k, max, seen).Ok?
    ensures
      var (cx, rest) := ParseContext(b, n, k, max, seen).value;
      ContextFits(cx, n, k, max) && cx.key !in seen && b == EncodeContext(cx) + rest
  {
    hide ParsePredictions;
    hide EncodePredictions;
    hide ParseKey;
    hide EncodeKey;
    hide PredictionFits;
    hide FreshNexts;
    hide LE;
    ParseKeyExact(b, k);
    var (key, b1) := ParseKey(b, k).value;
    ParseNumExact(b1, 2);
    var (m, b2) := ParseNum(b1, 2).value;
    ParsePredictionsExact(b2, n, m, {});
    var (ps, b3) := ParsePredictions(b2, n, m, {}).value;
    Associate(LE(m, 2), EncodePredictions(ps), b3);
    Associate(EncodeKey(key), LE(m, 2) + EncodePredictions(ps), b3);
  }

  function EncodeContexts(cs: seq<Context>): seq<byte> {
    if cs == [] then [] else EncodeContext(cs[0]) + EncodeContexts(cs[1..])
  }

  lemma {:induction false} EncodeContextsAppend(cs: seq<Context>, cx: Context)
    ensures EncodeContexts(cs + [cx]) == EncodeContexts(cs) + EncodeContext(cx)
  {
    hide EncodeContext;
    if cs == [] {
      assert EncodeContexts([cx]) == EncodeContext(cx) + EncodeContexts([]);
    } else {
      EncodeContextsAppend(cs[1..], cx);
      assert (cs + [cx])[1..] == cs[1..] + [cx];
      assert EncodeContexts(cs + [cx]) == EncodeContext(cs[0]) + EncodeContexts(cs[1..] + [cx]);
    }
  }

  ghost predicate FreshKeys(cs: seq<Context>, seen: set<seq<nat>>) {
    && (forall i | 0 <= i < |cs| :: cs[i].key !in seen)
    && (forall i, j | 0 <= i < j < |cs| :: cs[i].key != cs[j].key)
  }

  function ParseContexts(b: seq<byte>, n: nat, k: nat, max: nat, m: nat, seen: set<seq<nat>>): Parsed<seq<Context>>
    decreases m
  {
    if m == 0 then Ok(([], b))
    else
      var (cx, b1) :- ParseContext(b, n, k, max, seen);
      var (cs, b2) :- ParseContexts(b1, n, k, max, m - 1, seen + {cx.key});
      Ok(([cx] + cs, b2))
  }

  lemma {:induction false} ParseContextsOfEncode(cs: seq<Context>, n: nat, k: nat, max: nat, seen: set<seq<nat>>,
                                                 rest: seq<byte>)
    requires n <= 0x1_0000_0000 && max <= U16_MAX
    requires FreshKeys(cs, seen) && forall i | 0 <= i < |cs| :: ContextFits(cs[i], n, k, max)
    ensures ParseContexts(EncodeContexts(cs) + rest, n, k, max, |cs|, seen) == Ok((cs, rest))
    decreases |cs|
  {
    hide ParseContext;
    hide EncodeContext;
    hide ContextFits;
    if cs == [] {
      assert EncodeContexts(cs) + rest == rest;
    } else {
      Associate(EncodeContext(cs[0]), EncodeContexts(cs[1..]), rest);
      ParseContextOfEncode(cs[0], n, k, max, seen, EncodeContexts(cs[1..]) + rest);
      ParseContextsOfEncode(cs[1..], n, k, max, seen + {cs[0].key}, rest);
      assert cs == [cs[0]] + cs[1..];
    }
  }

  lemma {:induction false} ParseContextsExact(b: seq<byte>, n: nat, k: nat, max: nat, m: nat, seen: set<seq<nat>>)
    requires ParseContexts(b, n, k, max, m, seen).Ok?
    ensures
      var (cs, rest) := ParseContexts(b, n, k, max, m, seen).value;
      && |cs| == m && FreshKeys(cs, seen) && (forall i | 0 <= i < |cs| :: ContextFits(cs[i], n, k, max))
      && b == EncodeContexts(cs) + rest
    decreases m
  {
    hide ParseContext;
    hide EncodeContext;
    hide ContextFits;
    if m > 0 {
      ParseContextExact(b, n, k, max, seen);
      var (cx, b1) := ParseContext(b, n, k, max, seen).value;
      ParseContextsExact(b1, n, k, max, m - 1, seen + {cx.key});
      var (cs, b2) := ParseContexts(b1, n, k, max, m - 1, seen + {cx.key}).value;
      assert ([cx] + cs)[0] == cx && ([cx] + cs)[1..] == cs;
      assert forall i | 0 <= i < |cs| :: cs[i].key !in seen + {cx.key};
      Associate(EncodeContext(cx), EncodeContexts(cs), b2);
    }
  }

  // Sections

  /** How many keys of `k` indices below `n` there are. */
  function Capacity(n: nat, k: nat): nat {
    if k == 0 then 1 else n * Capacity(n, k - 1)
  }

  function MinContextBytes(k: nat): nat {
    4 * k + 2 + 16
  }

  function EncodeSection(cs: seq<Context>): seq<byte> {
    LE(|cs|, 4) + EncodeContexts(cs)
  }

  /** What the loader demands of a whole section. */
  ghost predicate SectionFits(cs: seq<Context>, n: nat, k: nat, max: nat) {
    FreshKeys(cs, {}) && forall i | 0 <= i < |cs| :: ContextFits(cs[i], n, k, max)
  }

  function ParseSection(b: seq<byte>, n: nat, k: nat, max: nat): Parsed<seq<Context>> {
    var (m, b1) :- ParseNum(b, 4);
    if m > Capacity(n, k) || m > |b1| / MinContextBytes(k) then Err(InvalidPayload)
    else ParseContexts(b1, n, k, max, m, {})
  }

  /** The position of a key among all keys of its length. */
  function Rank(key: seq<nat>, n: nat): nat {
    if key == [] then 0 else key[0] * Capacity(n, |key| - 1) + Rank(key[1..], n)
  }

  lemma {:induction false} RankBelow(key: seq<nat>, n: nat)
    requires KeyBelow(key, n)
    ensures Rank(key, n) < Capacity(n, |key|)
  {
    if key != [] {
      RankBelow(key[1..], n);
      var c := Capacity(n, |key| - 1);
      StepTimes(key[0], n, c);
    }
  }

  lemma StepTimes(x: nat, y: nat, c: nat)
    requires x < y
    ensures x * c + c <= y * c
  {
    assert (x + 1) * c <= y * c;
  }

  lemma DigitsDiffer(x: nat, y: nat, c: nat, r: nat, s: nat)
    requires x * c + r == y * c + s && r < c && s < c
    ensures x == y && r == s
  {
    if x < y {
      StepTimes(x, y, c);
    } else if y < x {
      StepTimes(y, x, c);
    }
  }

  lemma {:induction false} RankInjective(a: seq<nat>, b: seq<nat>, n: nat)
    requires |a| == |b| && KeyBelow(a, n) && KeyBelow(b, n) && Rank(a, n) == Rank(b, n)
    ensures a == b
  {
    if a != [] {
      RankBelow(a[1..], n);
      RankBelow(b[1..], n);
      DigitsDiffer(a[0], b[0], Capacity(n, |a| - 1), Rank(a[1..], n), Rank(b[1..], n));
      RankInjective(a[1..], b[1..], n);
      assert a == [a[0]] + a[1..] && b == [b[0]] + b[1..];
    }
  }

  /** Distinct contexts never exceed the number of possible keys. */
  lemma SectionWithinCapacity(cs: seq<Context>, n: nat, k: nat, max: nat)
    requires SectionFits(cs, n, k, max)
    ensures |cs| <= Capacity(n, k)
  {
    var ranks := seq(|cs|, i requires 0 <= i < |cs| => Rank(cs[i].key, n));
    forall i | 0 <= i < |cs| ensures ranks[i] < Capacity(n, k) {
      assert ContextFits(cs[i], n, k, max);
      RankBelow(cs[i].key, n);
    }
    forall i, j | 0 <= i < j < |cs| ensures ranks[i] != ranks[j] {
      assert ContextFits(cs[i], n, k, max) && ContextFits(cs[j], n, k, max);
      if ranks[i] == ranks[j] {
        RankInjective(cs[i].key, cs[j].key, n);
      }
    }
    Pigeonhole(ranks, Capacity(n, k));
  }

  lemma {:induction false} PredictionsLength(ps: seq<Prediction>)
    ensures |EncodePredictions(ps)| == 16 * |ps|
  {
    if ps != [] {
      PredictionsLength(ps[1..]);
    }
  }

  lemma {:induction false} KeyLength(key: seq<nat>)
    ensures |EncodeKey(key)| == 4 * |key|
  {
    if key != [] {
      KeyLength(key[1..]);
    }
  }

  lemma OneMore(n: nat, d: nat)
    ensures (n + 1) * d == n * d + d
  {
  }

  lemma {:induction false} ContextsLength(cs: seq<Context>, n: nat, k: nat, max: nat)
    requires forall i | 0 <= i < |cs| :: ContextFits(cs[i], n, k, max)
    ensures |EncodeContexts(cs)| >= |cs| * MinContextBytes(k)
  {
    hide EncodeKey;
    hide EncodePredictions;
    hide LE;
    if cs != [] {
      ContextsLength(cs[1..], n, k, max);
      assert ContextFits(cs[0], n, k, max);
      PredictionsLength(cs[0].predictions);
      KeyLength(cs[0].key);
      OneMore(|cs[1..]|, MinContextBytes(k));
    }
  }

  lemma DivisionBound(m: nat, d: nat, total: nat)
    requires d > 0 && m * d <= total
    ensures m <= total / d
  {
    if total / d < m {
      StepTimes(total / d, m, d);
    }
  }

  lemma ParseSectionOfEncode(cs: seq<Context>, n: nat, k: nat, max: nat, rest: seq<byte>)
    requires SectionFits(cs, n, k, max) && n <= 0x1_0000_0000 && max <= U16_MAX && |cs| < 0x1_0000_0000
    ensures ParseSection(EncodeSection(cs) + rest, n, k, max) == Ok((cs, rest))
  {
    hide ParseContexts;
    hide EncodeContexts;
    hide ContextFits;
    hide FreshKeys;
    hide Capacity;
    Bounds();
    Associate(LE(|cs|, 4), EncodeContexts(cs), rest);
    ParseNumOfLE(|cs|, 4, EncodeContexts(cs) + rest);
    SectionWithinCapacity(cs, n, k, max);
    ContextsLength(cs, n, k, max);
    DivisionBound(|cs|, MinContextBytes(k), |EncodeContexts(cs) + rest|);
    ParseContextsOfEncode(cs, n, k, max, {}, rest);
  }

  lemma ParseSectionExact(b: seq<byte>, n: nat, k: nat, max: nat)
    requires ParseSection(b, n, k, max).Ok?
    ensures
      var (cs, rest) := ParseSection(b, n, k, max).value;
      SectionFits(cs, n, k, max) && |cs| < 0x1_0000_0000 && b == EncodeSection(cs) + rest
  {
    hide ParseContexts;
    hide EncodeContexts;
    hide ContextFits;
    hide FreshKeys;
    hide Capacity;
    hide LE;
    Bounds();
    ParseNumExact(b, 4);
    var (m, b1) := ParseNum(b, 4).value;
    ParseContextsExact(b1, n, k, max, m, {});
    var (cs, rest) := ParseContexts(b1, n, k, max, m, {}).value;
    Associate(LE(m, 4), EncodeContexts(cs), rest);
  }

  // Payload and pack

  function EncodePayload(c: Codec, p: Pack): seq<byte> {
    EncodeEntries(c, p.entries) + (EncodeSection(p.bigrams) + EncodeSection(p.trigrams))
  }

  function ParsePayload(c: Codec, b: seq<byte>, count: nat): Result<Pack, LoadError> {
    if count > |b| / MIN_ENCODED_ENTRY_BYTES then Err(InvalidPayload)
    else
      var (entries, b1) :- ParseEntries(c, b, count, NO_USAGE);
      var (bigrams, b2) :- ParseSection(b1, count, 1, MAX_BIGRAM_PREDICTIONS);
      var (trigrams, b3) :- ParseSection(b2, count, 2, MAX_TRIGRAM_PREDICTIONS);
      if b3 != [] then Err(InvalidPayload) else Ok(Pack(entries, bigrams, trigrams))
  }

  /** Everything a pack must satisfy to be encodable and loadable. */
  ghost predicate PackFits(c: Codec, p: Pack) {
    var n := |p.entries|;
    && n < 0x1_0000_0000
    && (forall i | 0 <= i < n :: EntryFits(c, p.entries[i]))
    && UsageFrom(c, NO_USAGE, p.entries).Fits()
    && SectionFits(p.bigrams, n, 1, MAX_BIGRAM_PREDICTIONS) && |p.bigrams| < 0x1_0000_0000
    && SectionFits(p.trigrams, n, 2, MAX_TRIGRAM_PREDICTIONS) && |p.trigrams| < 0x1_0000_0000
  }

  lemma EntryLength(c: Codec, e: LexiconEntry)
    ensures |EncodeEntry(c, e)| >= MIN_ENCODED_ENTRY_BYTES
  {
    EncodeFourStrs(c, e.word, e.lemmaForm, e.normalized, e.partOfSpeech, []);
    assert |EncodeStrs(c, [e.word, e.lemmaForm, e.normalized, e.partOfSpeech]) + []| >= 8;
  }

  lemma {:induction false} EntriesLength(c: Codec, es: seq<LexiconEntry>)
    ensures |EncodeEntries(c, es)| >= |es| * MIN_ENCODED_ENTRY_BYTES
  {
    hide EncodeEntry;
    if es != [] {
      EntriesLength(c, es[1..]);
      EntryLength(c, es[0]);
    }
  }

  lemma ParsePayloadOfEncode(c: Codec, p: Pack)
    requires c.Lawful() && PackFits(c, p)
    ensures ParsePayload(c, EncodePayload(c, p), |p.entries|) == Ok(p)
  {
    hide ParseEntries;
    hide EncodeEntries;
    hide ParseSection;
    hide EncodeSection;
    hide SectionFits;
    hide EntryFits;
    hide UsageFrom;
    EntriesLength(c, p.entries);
    DivisionBound(|p.entries|, MIN_ENCODED_ENTRY_BYTES, |EncodePayload(c, p)|);
    var tail := EncodeSection(p.bigrams) + EncodeSection(p.trigrams);
    ParseEntriesOfEncode(c, p.entries, NO_USAGE, tail);
    ParseSectionOfEncode(p.bigrams, |p.entries|, 1, MAX_BIGRAM_PREDICTIONS, EncodeSection(p.trigrams));
    ParseSectionOfEncode(p.trigrams, |p.entries|, 2, MAX_TRIGRAM_PREDICTIONS, []);
    assert EncodeSection(p.trigrams) + [] == EncodeSection(p.trigrams);
  }

  lemma ParsePayloadExact(c: Codec, b: seq<byte>, count: nat)
    requires c.Lawful() && count < 0x1_0000_0000 && ParsePayload(c, b, count).Ok?
    ensures
      var p := ParsePayload(c, b, count).value;
      |p.entries| == count && PackFits(c, p) && b == EncodePayload(c, p)
  {
    hide ParseEntries;
    hide EncodeEntries;
    hide ParseSection;
    hide EncodeSection;
    hide SectionFits;
    hide EntryFits;
    hide UsageFrom;
    ParseEntriesExact(c, b, count, NO_USAGE);
    var (entries, b1) := ParseEntries(c, b, count, NO_USAGE).value;
    ParseSectionExact(b1, count, 1, MAX_BIGRAM_PREDICTIONS);
    var (bigrams, b2) := ParseSection(b1, count, 1, MAX_BIGRAM_PREDICTIONS).value;
    ParseSectionExact(b2, count, 2, MAX_TRIGRAM_PREDICTIONS);
  }

  /** The bytes after the magic and the version, up to the payload. */
  function EncodeHeader(c: Codec, count: nat, payload: seq<byte>): seq<byte> {
    MAGIC_BYTES + (LE(PACK_VERSION, 4) + (EncodeStr(c, LANGUAGE_TAG)
    + (LE(count, 4) + (LE(|payload|, 8) + c.digest(payload)))))
  }

  function EncodePack(c: Codec, p: Pack): seq<byte> {
    EncodeHeader(c, |p.entries|, EncodePayload(c, p)) + EncodePayload(c, p)
  }

  function ParsePack(c: Codec, bytes: seq<byte>): Result<Pack, LoadError> {
    if |bytes| < 12 then Err(TooShort)
    else if bytes[..4] != MAGIC_BYTES then Err(InvalidMagicBytes)
    else if FromLE(bytes[4..8]) != PACK_VERSION then Err(UnsupportedVersion)
    else
      var (tag, b1) :- ParseStr(c, bytes[8..]);
      if tag != LANGUAGE_TAG then Err(IncompatibleLanguage)
      else ParseBody(c, b1)
  }

  /** The whole pack, field after field. */
  function PackOnto(c: Codec, count: nat, payload: seq<byte>): seq<byte> {
    MAGIC_BYTES + (LE(PACK_VERSION, 4) + (EncodeStr(c, LANGUAGE_TAG)
    + (LE(count, 4) + (LE(|payload|, 8) + (c.digest(payload) + payload)))))
  }

  lemma PackOntoIsEncode(c: Codec, count: nat, payload: seq<byte>)
    ensures EncodeHeader(c, count, payload) + payload == PackOnto(c, count, payload)
  {
    hide EncodeStr;
    hide LE;
    var d := c.digest(payload);
    var l := LE(|payload|, 8);
    var n := LE(count, 4);
    var t := EncodeStr(c, LANGUAGE_TAG);
    var v := LE(PACK_VERSION, 4);
    Associate(l, d, payload);
    Associate(n, l + d, payload);
    Associate(t, n + (l + d), payload);
    Associate(v, t + (n + (l + d)), payload);
    Associate(MAGIC_BYTES, v + (t + (n + (l + d))), payload);
  }

  /** The fields behind the language tag. */
  function ParseBody(c: Codec, b1: seq<byte>): Result<Pack, LoadError> {
    if |b1| < 12 then Err(TruncatedPayload)
    else
      var (count, b2) :- ParseNum(b1, 4);
      var (payloadLen, b3) :- ParseNum(b2, 8);
      if |b3| < 32 then Err(TruncatedPayload)
      else
        var payload := b3[32..];
        if |payload| != payloadLen then Err(InvalidPayload)
        else if b3[..32] != c.digest(payload) then Err(ChecksumMismatch)
        else ParsePayload(c, payload, count)
  }

  lemma ParseBodyOfEncode(c: Codec, count: nat, payload: seq<byte>)
    requires c.Lawful() && count < 0x1_0000_0000 && |payload| < 0x1_0000_0000_0000_0000
    ensures ParseBody(c, LE(count, 4) + (LE(|payload|, 8) + (c.digest(payload) + payload)))
            == ParsePayload(c, payload, count)
  {
    hide ParsePayload;
    hide ParseNum;
    Bounds();
    var b3 := c.digest(payload) + payload;
    var b2 := LE(|payload|, 8) + b3;
    ParseNumOfLE(count, 4, b2);
    ParseNumOfLE(|payload|, 8, b3);
    assert b3[..32] == c.digest(payload) && b3[32..] == payload;
  }

  lemma ParseBodyExact(c: Codec, b1: seq<byte>)
    requires c.Lawful() && ParseBody(c, b1).Ok?
    ensures
      var p := ParseBody(c, b1).value;
      var payload := EncodePayload(c, p);
      && PackFits(c, p) && |payload| < 0x1_0000_0000_0000_0000
      && b1 == LE(|p.entries|, 4) + (LE(|payload|, 8) + (c.digest(payload) + payload))
  {
    hide ParsePayload;
    hide EncodePayload;
    hide PackFits;
    hide LE;
    Bounds();
    ParseNumExact(b1, 4);
    var (count, b2) := ParseNum(b1, 4).value;
    ParseNumExact(b2, 8);
    var (payloadLen, b3) := ParseNum(b2, 8).value;
    ParsePayloadExact(c, b3[32..], count);
    assert b3 == b3[..32] + b3[32..];
  }

  /** Behind a correct header, the payload decides. */
  lemma LoadIsPayload(c: Codec, count: nat, payload: seq<byte>)
    requires c.Lawful() && StrFits(c, LANGUAGE_TAG)
    requires count < 0x1_0000_0000 && |payload| < 0x1_0000_0000_0000_0000
    ensures ParsePack(c, EncodeHeader(c, count, payload) + payload) == ParsePayload(c, payload, count)
  {
    hide ParsePayload;
    hide ParseStr;
    hide EncodeStr;
    hide ParseBody;
    hide LE;
    Bounds();
    PackOntoIsEncode(c, count, payload);
    var b1 := LE(count, 4) + (LE(|payload|, 8) + (c.digest(payload) + payload));
    var b0 := EncodeStr(c, LANGUAGE_TAG) + b1;
    var bytes := EncodeHeader(c, count, payload) + payload;
    assert bytes == MAGIC_BYTES + (LE(PACK_VERSION, 4) + b0);
    assert bytes[..4] == MAGIC_BYTES;
    assert bytes[4..8] == LE(PACK_VERSION, 4);
    assert bytes[8..] == b0;
    LERoundTrip(PACK_VERSION, 4);
    ParseStrOfEncode(c, LANGUAGE_TAG, b1);
    ParseBodyOfEncode(c, count, payload);
  }

  /** Loading undoes encoding: the bytes of a well-formed pack are accepted and give it back. */
  lemma LoadOfEncode(c: Codec, p: Pack)
    requires c.Lawful() && PackFits(c, p) && StrFits(c, LANGUAGE_TAG)
    requires |EncodePayload(c, p)| < 0x1_0000_0000_0000_0000
    ensures ParsePack(c, EncodePack(c, p)) == Ok(p)
  {
    hide ParsePack;
    hide ParsePayload;
    hide EncodePayload;
    hide PackFits;
    CountFits(c, p);
    LoadIsPayload(c, |p.entries|, EncodePayload(c, p));
    ParsePayloadOfEncode(c, p);
  }

  lemma CountFits(c: Codec, p: Pack)
    requires PackFits(c, p)
    ensures |p.entries| < 0x1_0000_0000
  {
  }

  /** The loader accepts nothing else: whatever it accepts is the encoding of the well-formed
      pack it returns, down to the last byte. */
  lemma LoadIsExact(c: Codec, bytes: seq<byte>)
    requires c.Lawful() && ParsePack(c, bytes).Ok?
    ensures
      var p := ParsePack(c, bytes).value;
      PackFits(c, p) && StrFits(c, LANGUAGE_TAG) && |EncodePayload(c, p)| < 0x1_0000_0000_0000_0000
      && bytes == EncodePack(c, p)
  {
    hide EncodePayload;
    hide PackFits;
    hide ParseStr;
    hide EncodeStr;
    hide ParseBody;
    hide LE;
    ParseStrExact(c, bytes[8..]);
    var (tag, b1) := ParseStr(c, bytes[8..]).value;
    ParseBodyExact(c, b1);
    var p := ParsePack(c, bytes).value;
    FromLERoundTrip(bytes[4..8]);
    assert bytes == bytes[..4] + (bytes[4..8] + bytes[8..]);
    PackOntoIsEncode(c, |p.entries|, EncodePayload(c, p));
  }
}
