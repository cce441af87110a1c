/** The query-time candidate index: entries by normalized form for exact lookup, and by
    stripped form, through a trie, for fuzzy lookup. */
module QueryIndexes {
  import opened Wrappers
  import opened Orders
  import opened Normalization
  import opened EditDistance
  import opened FuzzyRows
  import opened Tries

  const TWO32 := 0x1_0000_0000

  // Reference semantics

  /** The unit radius on stripped forms that covers every weighted cost the scorer accepts. */
  const MAX_STRIPPED_UNIT_DISTANCE := 2

  /** The first entry carrying the form, by linear scan from `i`. */
  function PositionFrom(forms: seq<Str>, target: Str, i: nat): (r: Option<nat>)
    requires i <= |forms|
    ensures r.Some? ==> i <= r.value < |forms| && forms[r.value] == target && target !in forms[i..r.value]
    ensures r.None? ==> target !in forms[i..]
    decreases |forms| - i
  {
    if i == |forms| then None
    else if forms[i] == target then Some(i)
    else
      assert forms[i..] == [forms[i]] + forms[i + 1..];
      var r := PositionFrom(forms, target, i + 1);
      assert r.Some? ==> forms[i..r.value] == [forms[i]] + forms[i + 1..r.value];
      r
  }

  function Position(forms: seq<Str>, target: Str): Option<nat> {
    PositionFrom(forms, target, 0)
  }

  /** What linear scan returns, said without the scan. */
  lemma PositionIsFirst(forms: seq<Str>, target: Str)
    ensures Position(forms, target).None? <==> target !in forms
    ensures forall i: nat ::
              Position(forms, target) == Some(i) <==>
                i < |forms| && forms[i] == target && forall j | 0 <= j < i :: forms[j] != target
  {
    var r := Position(forms, target);
    assert forms[0..] == forms;
    if r.Some? {
      assert forall j | 0 <= j < r.value :: forms[j] == forms[0..r.value][j];
    }
  }

  // Sorted indices

  function FormAt(forms: seq<Str>, i: nat): Str {
    if i < |forms| then forms[i] else []
  }

  function CompareIndices(forms: seq<Str>, a: nat, b: nat): Ordering {
    CompareStr(FormAt(forms, a), FormAt(forms, b)).Then(CompareNat(a, b))
  }

  function IndexLeq(forms: seq<Str>): (nat, nat) -> bool {
    (a: nat, b: nat) => !CompareIndices(forms, a, b).Greater?
  }

  function Indices(n: nat): (r: seq<nat>)
    ensures |r| == n && forall i | 0 <= i < n :: r[i] == i
  {
    seq(n, (i: nat) => i)
  }

  /** Entry indices ordered by (form, index). */
  function SortedIndices(forms: seq<Str>): seq<nat> {
    SortBy(IndexLeq(forms), Indices(|forms|))
  }

  lemma IndexLeqIsTotalOrder(forms: seq<Str>)
    ensures TotalPreorder<nat>(IndexLeq(forms))
    ensures forall a: nat, b: nat | IndexLeq(forms)(a, b) && IndexLeq(forms)(b, a) :: a == b
  {
    var leq := IndexLeq(forms);
    forall a: nat, b: nat ensures (leq(a, b) || leq(b, a)) && (leq(a, b) && leq(b, a) ==> a == b) {
      CompareStrFlips(FormAt(forms, a), FormAt(forms, b));
    }
    forall a: nat, b: nat, c: nat | leq(a, b) && leq(b, c) ensures leq(a, c) {
      CompareStrFlips(FormAt(forms, a), FormAt(forms, b));
      CompareStrFlips(FormAt(forms, b), FormAt(forms, c));
      CompareStrFlips(FormAt(forms, a), FormAt(forms, c));
      CompareStrTransitive(FormAt(forms, a), FormAt(forms, b), FormAt(forms, c));
    }
  }

  lemma SortedIndicesShape(forms: seq<Str>)
    ensures
      var s := SortedIndices(forms);
      && |s| == |forms| && Distinct(s) && Sorted(IndexLeq(forms), s)
      && forall i: nat :: i in s <==> i < |forms|
  {
    IndexLeqIsTotalOrder(forms);
    var identity := Indices(|forms|);
    SortBySorts<nat>(IndexLeq(forms), identity);
    DistinctPermutation(identity, SortedIndices(forms));
    forall i: nat | i < |forms| ensures i in identity {
      assert identity[i] == i;
    }
  }

  // Exact lookup

  predicate FormBefore(forms: seq<Str>, target: Str, i: nat) {
    CompareStr(FormAt(forms, i), target).Less?
  }

  function FindNormalized(byNormalized: seq<nat>, forms: seq<Str>, target: Str): Option<nat> {
    var first := PartitionPoint(byNormalized, (i: nat) => FormBefore(forms, target, i));
    if first < |byNormalized| && FormAt(forms, byNormalized[first]) == target then Some(byNormalized[first]) else None
  }

  lemma SortedFormsPartition(forms: seq<Str>, target: Str)
    ensures
      var s := SortedIndices(forms);
      forall p, q | 0 <= p <= q < |s| && FormBefore(forms, target, s[q]) :: FormBefore(forms, target, s[p])
  {
    SortedIndicesShape(forms);
    var s := SortedIndices(forms);
    forall p, q | 0 <= p <= q < |s| && FormBefore(forms, target, s[q]) ensures FormBefore(forms, target, s[p]) {
      assert IndexLeq(forms)(s[p], s[q]);
      CompareStrTransitive(FormAt(forms, s[p]), FormAt(forms, s[q]), target);
    }
  }

  function FirstNotBefore(forms: seq<Str>, target: Str): nat {
    PartitionPoint(SortedIndices(forms), (i: nat) => FormBefore(forms, target, i))
  }

  lemma FirstHit(forms: seq<Str>, target: Str, i: nat)
    requires i < |forms| && forms[i] == target
    ensures
      var s, first := SortedIndices(forms), FirstNotBefore(forms, target);
      first < |s| && FormAt(forms, s[first]) == target && s[first] <= i
  {
    var s := SortedIndices(forms);
    var before := (i: nat) => FormBefore(forms, target, i);
    SortedIndicesShape(forms);
    SortedFormsPartition(forms, target);
    PartitionBetweenSplits(s, before, 0, |s|);
    CompareStrFlips(target, target);
    assert i in s;
    var q :| 0 <= q < |s| && s[q] == i;
    assert !before(s[q]);
    var first := FirstNotBefore(forms, target);
    assert IndexLeq(forms)(s[first], s[q]);
    CompareStrFlips(FormAt(forms, s[first]), target);
  }

  /** Binary search finds what linear scan finds, also when forms repeat. */
  lemma FindNormalizedIsPosition(forms: seq<Str>, target: Str)
    ensures FindNormalized(SortedIndices(forms), forms, target) == Position(forms, target)
  {
    hide SortedIndices;
    var s, first := SortedIndices(forms), FirstNotBefore(forms, target);
    SortedIndicesShape(forms);
    PositionIsFirst(forms, target);
    if target in forms {
      var i := Position(forms, target).value;
      FirstHit(forms, target, i);
      assert s[first] in s;
    } else {
      assert first < |s| ==> s[first] in s;
    }
  }

  // The runs of equal stripped forms

  ghost predicate IsRun(byStripped: seq<nat>, stripped: seq<Str>, form: Str, payload: u64) {
    var start, len := payload / TWO32, payload % TWO32;
    && start + len <= |byStripped|
    && forall k | 0 <= k < |byStripped| :: FormAt(stripped, byStripped[k]) == form <==> start <= k < start + len
  }

  /** The trie's payloads locate, for exactly the stripped forms of the lexicon, their entries. */
  ghost predicate RunsRight(view: map<Str, u64>, byStripped: seq<nat>, stripped: seq<Str>) {
    && (forall w | w in view :: IsRun(byStripped, stripped, w, view[w]))
    && (forall i | 0 <= i < |stripped| :: stripped[i] in view)
  }

  function StrippedForms(norm: Normalizer, forms: seq<Str>): (r: seq<Str>)
    ensures |r| == |forms| && forall i | 0 <= i < |r| :: r[i] == StripDiacritics(norm, forms[i])
  {
    seq(|forms|, i requires 0 <= i < |forms| => StripDiacritics(norm, forms[i]))
  }

  /** The run a payload stands for. */
  function RunOf(byStripped: seq<nat>, p: u64): seq<nat> {
    var start, len := p / TWO32, p % TWO32;
    if start + len <= |byStripped| then byStripped[start..start + len] else []
  }

  /** The concatenated runs of some payloads. */
  function Runs(byStripped: seq<nat>, payloads: seq<u64>): seq<nat> {
    if payloads == [] then [] else Runs(byStripped, Init(payloads)) + RunOf(byStripped, Last(payloads))
  }

  predicate NatLeq(a: nat, b: nat) {
    a <= b
  }

  /** Entry indices, ascending, whose stripped form is within `k` of `q`. */
  function Within(stripped: seq<Str>, q: Str, k: nat, n: nat): seq<nat>
    requires n <= |stripped|
  {
    if n == 0 then []
    else Within(stripped, q, k, n - 1) + if Distance(Unit, stripped[n - 1], q) <= k then [n - 1] else []
  }

  lemma {:induction false} WithinMembers(stripped: seq<Str>, q: Str, k: nat, n: nat)
    requires n <= |stripped|
    ensures
      var r := Within(stripped, q, k, n);
      && (forall i: nat :: i in r <==> i < n && Distance(Unit, stripped[i], q) <= k)
      && Sorted(NatLeq, r) && Distinct(r)
  {
    hide Distance;
    if n > 0 {
      WithinMembers(stripped, q, k, n - 1);
      var r := Within(stripped, q, k, n - 1);
      assert forall i | 0 <= i < |r| :: r[i] in r;
    }
  }

  lemma {:induction false} FuzzyMembers(entries: seq<Entry>, q: Str, k: nat)
    ensures forall p ::
              p in FuzzyMatches(entries, q, k) <==>
                exists i :: 0 <= i < |entries| && entries[i].1 == p && Distance(Unit, entries[i].0, q) <= k
  {
    hide Distance;
    if entries != [] {
      var n := |entries| - 1;
      FuzzyMembers(Init(entries), q, k);
      forall p
        ensures p in FuzzyMatches(entries, q, k) <==>
                  exists i :: 0 <= i < |entries| && entries[i].1 == p && Distance(Unit, entries[i].0, q) <= k
      {
        if p in FuzzyMatches(Init(entries), q, k) {
          var i :| 0 <= i < n && Init(entries)[i].1 == p && Distance(Unit, Init(entries)[i].0, q) <= k;
          assert entries[i].1 == p;
        }
        if i :| 0 <= i < |entries| && entries[i].1 == p && Distance(Unit, entries[i].0, q) <= k {
          assert i < n ==> Init(entries)[i] == entries[i];
        }
      }
    }
  }

  lemma {:induction false} RunsMembers(byStripped: seq<nat>, payloads: seq<u64>, i: nat)
    ensures i in Runs(byStripped, payloads) <==> exists p :: p in payloads && i in RunOf(byStripped, p)
  {
    hide RunOf;
    if payloads != [] {
      RunsMembers(byStripped, Init(payloads), i);
      assert payloads == Init(payloads) + [Last(payloads)];
      if i in RunOf(byStripped, Last(payloads)) {
        assert Last(payloads) in payloads;
      }
    }
  }

  /** The runs of the fuzzy matches hold exactly the entries within reach. */
  lemma RunsAreWithin(words: seq<Str>, frequencies: seq<u64>, forms: seq<Str>, q: Str, k: nat, i: nat)
    requires |words| == |frequencies| && StrictlySorted(words)
    requires RunsRight(Latest(Zip(words, frequencies)), SortedIndices(forms), forms)
    ensures i in Runs(SortedIndices(forms), FuzzyMatches(Zip(words, frequencies), q, k))
            <==> i < |forms| && Distance(Unit, forms[i], q) <= k
  {
    hide Distance;
    hide SortedIndices;
    hide Latest;
    var entries, s := Zip(words, frequencies), SortedIndices(forms);
    var view := Latest(entries);
    LatestOfSorted(words, frequencies);
    FuzzyMembers(entries, q, k);
    RunsMembers(s, FuzzyMatches(entries, q, k), i);
    SortedIndicesShape(forms);
    if i < |forms| && Distance(Unit, forms[i], q) <= k {
      var w := forms[i];
      var e :| 0 <= e < |words| && words[e] == w;
      assert entries[e].1 in FuzzyMatches(entries, q, k);
      RunHolds(s, forms, w, frequencies[e], i);
    }
    if p :| p in FuzzyMatches(entries, q, k) && i in RunOf(s, p) {
      var e :| 0 <= e < |entries| && entries[e].1 == p && Distance(Unit, entries[e].0, q) <= k;
      RunHolds(s, forms, words[e], p, i);
    }
  }

  lemma RunHolds(s: seq<nat>, forms: seq<Str>, w: Str, p: u64, i: nat)
    requires IsRun(s, forms, w, p) && forall j: nat :: j in s <==> j < |forms|
    ensures i in RunOf(s, p) <==> i < |forms| && forms[i] == w
  {
    SliceHolds(s, forms, w, p / TWO32, p % TWO32, i);
  }

  lemma SliceHolds(s: seq<nat>, forms: seq<Str>, w: Str, start: nat, len: nat, i: nat)
    requires start + len <= |s| && forall j: nat :: j in s <==> j < |forms|
    requires forall k | 0 <= k < |s| :: FormAt(forms, s[k]) == w <==> start <= k < start + len
    ensures i in s[start..start + len] <==> i < |forms| && forms[i] == w
  {
    var run := s[start..start + len];
    if i < |forms| && forms[i] == w {
      assert i in s;
      var k :| 0 <= k < |s| && s[k] == i;
      assert FormAt(forms, s[k]) == w;
      assert run[k - start] == i;
    }
    if i in run {
      var k :| 0 <= k < len && run[k] == i;
      assert s[start + k] == i && s[start + k] in s;
      assert FormAt(forms, s[start + k]) == w;
    }
  }

  lemma NatLeqIsTotalOrder()
    ensures TotalPreorder(NatLeq)
  {
  }

  /** Sorting and deduplicating yields the ascending list. */
  lemma CandidatesAreWithin(out: seq<nat>, stripped: seq<Str>, q: Str, k: nat)
    requires forall i: nat :: i in out <==> i < |stripped| && Distance(Unit, stripped[i], q) <= k
    ensures Dedup(SortBy(NatLeq, out)) == Within(stripped, q, k, |stripped|)
  {
    hide Distance;
    NatLeqIsTotalOrder();
    SortBySorts(NatLeq, out);
    DedupSorted(NatLeq, SortBy(NatLeq, out));
    DedupKeepsElements(SortBy(NatLeq, out));
    WithinMembers(stripped, q, k, |stripped|);
    SortedByElements(NatLeq, Dedup(SortBy(NatLeq, out)), Within(stripped, q, k, |stripped|));
  }

  // The index

  datatype QueryIndex = QueryIndex(byNormalized: seq<nat>, byStripped: seq<nat>, strippedTrie: Trie) {
    ghost predicate Valid(norm: Normalizer, forms: seq<Str>)
      reads strippedTrie
    {
      && byNormalized == SortedIndices(forms)
      && byStripped == SortedIndices(StrippedForms(norm, forms))
      && strippedTrie.Valid() && strippedTrie.IsBuilt()
      && RunsRight(strippedTrie.View(), byStripped, StrippedForms(norm, forms))
    }

    /** Ascending, duplicate-free entries whose stripped form is within the bound. */
    method Candidates(norm: Normalizer, ghost forms: seq<Str>, queryStripped: Str, maxUnitDistance: nat)
      returns (out: seq<nat>)
      requires Valid(norm, forms)
      ensures out == Within(StrippedForms(norm, forms), queryStripped, maxUnitDistance, |forms|)
    {
      hide Distance;
      hide SortedIndices;
      hide Trie.Valid;
      hide IsFuzzyAnswer;
      var payloads := strippedTrie.FuzzyTerminals(queryStripped, maxUnitDistance);
      out := [];
      for t := 0 to |payloads|
        invariant out == Runs(byStripped, payloads[..t])
      {
        out := out + RunOf(byStripped, payloads[t]);
        assert Init(payloads[..t + 1]) == payloads[..t];
      }
      assert payloads[..|payloads|] == payloads;
      ghost var stripped := StrippedForms(norm, forms);
      RunsOfTrie(norm, forms, queryStripped, maxUnitDistance);
      CandidatesAreWithin(out, stripped, queryStripped, maxUnitDistance);
      out := SortBy(NatLeq, out);
      out := Dedup(out);
    }

    lemma RunsOfTrie(norm: Normalizer, forms: seq<Str>, q: Str, k: nat)
      requires Valid(norm, forms)
      ensures
        var stripped := StrippedForms(norm, forms);
        forall i: nat ::
          i in Runs(byStripped, FuzzyMatches(strippedTrie.Entries(), q, k))
          <==> i < |stripped| && Distance(Unit, stripped[i], q) <= k
    {
      hide Distance;
      hide SortedIndices;
      hide Latest;
      var stripped := StrippedForms(norm, forms);
      var t := strippedTrie;
      assert t.Entries() + [] == t.Entries();
      t.WordsAreSorted();
      forall i: nat
        ensures i in Runs(byStripped, FuzzyMatches(t.Entries(), q, k))
                <==> i < |stripped| && Distance(Unit, stripped[i], q) <= k
      {
        RunsAreWithin(t.words, t.wordFrequency, stripped, q, k, i);
      }
    }
  }

  lemma SortedFormsOrder(forms: seq<Str>, p: nat, q: nat)
    requires p <= q < |SortedIndices(forms)|
    ensures
      var s := SortedIndices(forms);
      StrLeq(FormAt(forms, s[p]), FormAt(forms, s[q]))
  {
    SortedIndicesShape(forms);
    var s := SortedIndices(forms);
    assert IndexLeq(forms)(s[p], s[q]);
  }

  /** In sorted order, a maximal block of equal forms holds every occurrence of the form. */
  lemma MaximalBlockIsRun(forms: seq<Str>, form: Str, start: nat, end: nat, k: nat)
    requires start < end <= |SortedIndices(forms)| && k < |SortedIndices(forms)|
    requires
      var s := SortedIndices(forms);
      && (forall j | start <= j < end :: FormAt(forms, s[j]) == form)
      && (start > 0 ==> FormAt(forms, s[start - 1]) != form)
      && (end < |s| ==> FormAt(forms, s[end]) != form)
    ensures FormAt(forms, SortedIndices(forms)[k]) == form <==> start <= k < end
  {
    hide SortedIndices;
    var s := SortedIndices(forms);
    if k < start {
      SortedFormsOrder(forms, k, start - 1);
      SortedFormsOrder(forms, start - 1, start);
      CompareStrFlips(FormAt(forms, s[start - 1]), form);
    } else if k >= end {
      SortedFormsOrder(forms, end, k);
      SortedFormsOrder(forms, end - 1, end);
      CompareStrFlips(form, FormAt(forms, s[end]));
    }
  }

  lemma PayloadDecodes(start: nat, len: nat)
    requires start < TWO32 && len < TWO32
    ensures (start * TWO32 + len) / TWO32 == start && (start * TWO32 + len) % TWO32 == len
  {
  }

  /** The runs of the first `n` sorted entries are recorded. */
  ghost predicate RunsUpTo(view: map<Str, u64>, byStripped: seq<nat>, stripped: seq<Str>, n: nat)
    requires n <= |byStripped|
  {
    && (forall w | w in view :: IsRun(byStripped, stripped, w, view[w]))
    && (forall k | 0 <= k < n :: FormAt(stripped, byStripped[k]) in view)
  }

  lemma RunsComplete(view: map<Str, u64>, stripped: seq<Str>)
    requires |SortedIndices(stripped)| == |stripped|
    requires RunsUpTo(view, SortedIndices(stripped), stripped, |stripped|)
    ensures RunsRight(view, SortedIndices(stripped), stripped)
  {
    hide SortedIndices;
    var s := SortedIndices(stripped);
    SortedIndicesShape(stripped);
    forall i | 0 <= i < |stripped| ensures stripped[i] in view {
      assert i in s;
      var k :| 0 <= k < |s| && s[k] == i;
      assert FormAt(stripped, s[k]) in view;
    }
  }

  method RunEnd(stripped: seq<Str>, start: nat) returns (end: nat)
    requires start < |SortedIndices(stripped)|
    ensures
      var s := SortedIndices(stripped);
      var form := FormAt(stripped, s[start]);
      && start < end <= |s|
      && (forall j | start <= j < end :: FormAt(stripped, s[j]) == form)
      && (end < |s| ==> FormAt(stripped, s[end]) != form)
  {
    hide SortedIndices;
    var byStripped := SortedIndices(stripped);
    var form := FormAt(stripped, byStripped[start]);
    end := start + 1;
    while end < |byStripped| && FormAt(stripped, byStripped[end]) == form
      invariant start < end <= |byStripped|
      invariant forall j | start <= j < end :: FormAt(stripped, byStripped[j]) == form
    {
      end := end + 1;
    }
  }

  method BuildRuns(stripped: seq<Str>) returns (trie: Trie)
    requires |stripped| < TWO32
    ensures trie.Valid() && trie.IsBuilt() && fresh(trie)
    ensures RunsRight(trie.View(), SortedIndices(stripped), stripped)
  {
    hide SortedIndices;
    hide IsRun;
    hide Latest;
    SortedIndicesShape(stripped);
    var byStripped, n := SortedIndices(stripped), |stripped|;
    trie := new Trie();
    var start := 0;
    while start < n
      invariant start <= n && trie.Valid() && fresh(trie)
      invariant RunsUpTo(trie.View(), byStripped, stripped, start)
      invariant 0 < start < n ==> FormAt(stripped, byStripped[start - 1]) != FormAt(stripped, byStripped[start])
    {
      var form := FormAt(stripped, byStripped[start]);
      var end := RunEnd(stripped, start);
      var payload: u64 := Payload(stripped, start, end);
      PayloadIsRun(stripped, start, end);
      trie.Insert(form, payload);
      start := end;
    }
    RunsComplete(trie.View(), stripped);
    trie.Build();
  }

  /** The packed run, which decodes to where the form's entries are. */
  function Payload(stripped: seq<Str>, start: nat, end: nat): u64
    requires start < end <= |stripped| < TWO32
  {
    start * TWO32 + (end - start)
  }

  lemma PayloadIsRun(stripped: seq<Str>, start: nat, end: nat)
    requires |SortedIndices(stripped)| == |stripped| < TWO32
    requires start < end <= |stripped|
    requires
      var s := SortedIndices(stripped);
      var form := FormAt(stripped, s[start]);
      && (forall j | start <= j < end :: FormAt(stripped, s[j]) == form)
      && (start > 0 ==> FormAt(stripped, s[start - 1]) != form)
      && (end < |s| ==> FormAt(stripped, s[end]) != form)
    ensures IsRun(SortedIndices(stripped), stripped, FormAt(stripped, SortedIndices(stripped)[start]),
                  Payload(stripped, start, end))
  {
    hide SortedIndices;
    PayloadDecodes(start, end - start);
    var s := SortedIndices(stripped);
    var form := FormAt(stripped, s[start]);
    forall k | 0 <= k < |s| ensures FormAt(stripped, s[k]) == form <==> start <= k < end {
      MaximalBlockIsRun(stripped, form, start, end, k);
    }
  }

  /** Builds the index of up to 2^32 - 1 forms. Beyond that the 32-bit index arrays are shorter than
      the lexicon and the loop over the runs reads past their end, which the source turns into a
      panic. */
  method BuildIndex(norm: Normalizer, forms: seq<Str>) returns (built: Option<QueryIndex>)
    ensures built.Some? <==> |forms| < TWO32
    ensures built.Some? ==> built.value.Valid(norm, forms) && fresh(built.value.strippedTrie)
  {
    hide SortedIndices;
    if |forms| >= TWO32 {
      return None;
    }
    var byNormalized := SortedIndices(forms);
    var stripped := StrippedForms(norm, forms);
    var byStripped := SortedIndices(stripped);
    var strippedTrie := BuildRuns(stripped);
    built := Some(QueryIndex(byNormalized, byStripped, strippedTrie));
  }
}
