/** Properties of the compiled sections: they fit the format, they lose no in-lexicon record, and
    they do not depend on the order of the records. */
module CompiledSections {
  import opened Wrappers
  import opened Orders
  import opened Lexicon
  import opened PackFormat
  import opened CompiledPack

  /** Different words have different indices. */
  ghost predicate Injective(index: map<Str, nat>) {
    forall v, w | v in index && w in index && index[v] == index[w] :: v == w
  }

  lemma LexiconIndexInjective(forms: seq<Str>)
    ensures Injective(LexiconIndex(forms)) && KeysBelow(LexiconIndex(forms), |forms|)
  {
    var index := LexiconIndex(forms);
    forall w | w in index ensures index[w] < |forms| && forms[index[w]] == w {
      LexiconIndexIsLast(forms, w);
    }
  }

  lemma KeyOfInjective(index: map<Str, nat>, a: NgramRecord, b: NgramRecord, key: seq<nat>)
    requires Injective(index) && HasKey(index, a, key) && HasKey(index, b, key)
    ensures a.context == b.context
  {
    forall i | 0 <= i < |key| ensures a.context[i] == b.context[i] {
      assert KeyOf(index, a.context)[i] == KeyOf(index, b.context)[i];
    }
  }

  lemma {:induction false} GroupDistinct(index: map<Str, nat>, rs: seq<NgramRecord>, key: seq<nat>)
    requires NoDuplicates(rs)
    ensures Distinct(Group(index, rs, key))
  {
    hide HasKey;
    if rs != [] {
      GroupDistinct(index, Init(rs), key);
      GroupMembers(index, Init(rs), key);
      assert Last(rs) !in Init(rs);
    }
  }

  /** Within one context, the next words differ. */
  lemma SortedGroupNexts(index: map<Str, nat>, rs: seq<NgramRecord>, key: seq<nat>)
    requires Injective(index) && NoDuplicates(rs)
    ensures Distinct(SortedGroup(index, rs, key))
    ensures
      var g := SortedGroup(index, rs, key);
      forall i, j | 0 <= i < j < |g| :: g[i].next != g[j].next
  {
    SortedGroupMembers(index, rs, key);
    GroupDistinct(index, rs, key);
    var g := SortedGroup(index, rs, key);
    DistinctPermutation(Group(index, rs, key), g);
    hide SortedGroup;
    hide Group;
    hide HasKey;
    forall i, j | 0 <= i < j < |g| ensures g[i].next != g[j].next {
      assert g[i] in g && g[j] in g;
      KeyOfInjective(index, g[i], g[j], key);
      var a :| 0 <= a < |rs| && rs[a] == g[i];
      var b :| 0 <= b < |rs| && rs[b] == g[j];
    }
  }

  /** The records of a context, in the order in which they are compiled. */
  lemma SortedGroupDescends(index: map<Str, nat>, rs: seq<NgramRecord>, key: seq<nat>)
    requires Injective(index) && NoDuplicates(rs)
    ensures
      var g := SortedGroup(index, rs, key);
      forall i, j | 0 <= i < j < |g| :: Outranks(g[i], g[j])
  {
    hide SortedGroup;
    hide RecordLeq;
    hide Outranks;
    SortedGroupMembers(index, rs, key);
    SortedGroupNexts(index, rs, key);
    var g := SortedGroup(index, rs, key);
    forall i, j | 0 <= i < j < |g| ensures Outranks(g[i], g[j]) {
      assert RecordLeq(g[i], g[j]);
      RecordOrderReads(g[i], g[j]);
    }
  }

  lemma ContextOfFits(index: map<Str, nat>, rs: seq<NgramRecord>, key: seq<nat>, n: nat, k: nat, max: nat)
    requires Injective(index) && KeysBelow(index, n) && RecordsValid(rs)
    requires |key| == k && KeyBelow(key, n) && |Group(index, rs, key)| <= max
    requires exists i :: 0 <= i < |rs| && HasKey(index, rs[i], key)
    ensures ContextFits(ContextOf(index, rs, key), n, k, max)
  {
    hide SortedGroup;
    hide Group;
    hide HasKey;
    SortedGroupResolves(index, rs, key);
    SortedGroupMembers(index, rs, key);
    SortedGroupNexts(index, rs, key);
    var g, ps := SortedGroup(index, rs, key), ContextOf(index, rs, key).predictions;
    var a :| 0 <= a < |rs| && HasKey(index, rs[a], key);
    assert rs[a] in g;
    forall i | 0 <= i < |g| ensures PredictionFits(ps[i], n) {
      assert g[i] in g;
      var b :| 0 <= b < |rs| && rs[b] == g[i];
    }
  }

  /** What compiles also loads: the section satisfies every check of the loader. */
  lemma SectionOfFits(index: map<Str, nat>, rs: seq<NgramRecord>, n: nat, k: nat, max: nat)
    requires Injective(index) && KeysBelow(index, n) && n <= 0x1_0000_0000
    requires SectionCompiles(index, rs, max) && forall i | 0 <= i < |rs| :: |rs[i].context| == k
    ensures SectionFits(SectionOf(index, rs), n, k, max) && |SectionOf(index, rs)| <= U32_MAX
  {
    hide Group;
    hide SortedGroup;
    hide HasKey;
    hide ContextFits;
    var keys, cs := SectionKeys(index, rs), SectionOf(index, rs);
    SectionKeysAscend(index, rs, k);
    SectionKeysBelow(index, rs, k, n);
    hide SectionKeys;
    forall i | 0 <= i < |cs| ensures ContextFits(cs[i], n, k, max) && cs[i].key == keys[i] {
      assert keys[i] in keys;
      ContextOfFits(index, rs, keys[i], n, k, max);
    }
  }

  lemma SectionKeysBelow(index: map<Str, nat>, rs: seq<NgramRecord>, k: nat, n: nat)
    requires KeysBelow(index, n) && forall i | 0 <= i < |rs| :: |rs[i].context| == k
    ensures forall key | key in SectionKeys(index, rs) :: |key| == k && KeyBelow(key, n)
  {
    hide Keys;
    hide KeyLeq;
    KeysShape(index, rs, k, n);
    KeyLeqIsTotal();
    SortBySorts(KeyLeq, Keys(index, rs));
    DedupKeepsElements(SortBy(KeyLeq, Keys(index, rs)));
  }

  // Order of the records

  lemma {:induction false} GroupCounts(index: map<Str, nat>, rs: seq<NgramRecord>, key: seq<nat>)
    ensures forall r :: multiset(Group(index, rs, key))[r] == if HasKey(index, r, key) then multiset(rs)[r] else 0
  {
    hide HasKey;
    if rs != [] {
      GroupCounts(index, Init(rs), key);
      assert rs == Init(rs) + [Last(rs)];
    }
  }

  lemma ContextOfReordered(index: map<Str, nat>, rs: seq<NgramRecord>, ss: seq<NgramRecord>, key: seq<nat>)
    requires multiset(rs) == multiset(ss) && Injective(index) && NoDuplicates(rs)
    ensures |Group(index, rs, key)| == |Group(index, ss, key)|
    ensures ContextOf(index, rs, key) == ContextOf(index, ss, key)
  {
    GroupCounts(index, rs, key);
    GroupCounts(index, ss, key);
    var g, h := Group(index, rs, key), Group(index, ss, key);
    assert multiset(g) == multiset(h);
    SameElements(g, h);
    RecordLeqIsTotal();
    GroupNoTies(index, rs, key);
    SortByUnique(RecordLeq, g, h);
  }

  lemma GroupNoTies(index: map<Str, nat>, rs: seq<NgramRecord>, key: seq<nat>)
    requires Injective(index) && NoDuplicates(rs)
    ensures NoTies(RecordLeq, Group(index, rs, key))
  {
    hide RecordLeq;
    hide HasKey;
    RecordLeqIsTotal();
    GroupMembers(index, rs, key);
    var g := Group(index, rs, key);
    forall x, y | x in g && y in g && RecordLeq(x, y) && RecordLeq(y, x) ensures x == y {
      KeyOfInjective(index, x, y, key);
      var a :| 0 <= a < |rs| && rs[a] == x;
      var b :| 0 <= b < |rs| && rs[b] == y;
    }
  }

  lemma SectionKeysReordered(index: map<Str, nat>, rs: seq<NgramRecord>, ss: seq<NgramRecord>, k: nat)
    requires multiset(rs) == multiset(ss) && KeysBelow(index, 0x1_0000_0000)
    requires forall i | 0 <= i < |rs| :: |rs[i].context| == k
    ensures SectionKeys(index, rs) == SectionKeys(index, ss)
  {
    hide HasKey;
    hide KeyLeq;
    SameElements(rs, ss);
    forall i | 0 <= i < |ss| ensures |ss[i].context| == k {
      assert ss[i] in ss;
      var j :| 0 <= j < |rs| && rs[j] == ss[i];
    }
    SectionKeysAscend(index, rs, k);
    SectionKeysAscend(index, ss, k);
    var a, b := SectionKeys(index, rs), SectionKeys(index, ss);
    hide SectionKeys;
    forall key ensures key in a <==> key in b {
      SomeRecordHasKey(index, rs, ss, key);
      SomeRecordHasKey(index, ss, rs, key);
    }
    SortedByElements(KeyLeq, a, b);
  }

  lemma SomeRecordHasKey(index: map<Str, nat>, rs: seq<NgramRecord>, ss: seq<NgramRecord>, key: seq<nat>)
    requires forall r :: r in rs <==> r in ss
    ensures (exists i :: 0 <= i < |rs| && HasKey(index, rs[i], key))
            ==> exists j :: 0 <= j < |ss| && HasKey(index, ss[j], key)
  {
    hide HasKey;
    if i :| 0 <= i < |rs| && HasKey(index, rs[i], key) {
      assert rs[i] in ss;
    }
  }

  /** Reordering the records changes nothing: every sort key is strict, because duplicates are
      refused. */
  lemma SectionIgnoresOrder(index: map<Str, nat>, rs: seq<NgramRecord>, ss: seq<NgramRecord>, k: nat, max: nat)
    requires multiset(rs) == multiset(ss) && Injective(index) && KeysBelow(index, 0x1_0000_0000)
    requires forall i | 0 <= i < |rs| :: |rs[i].context| == k
    requires NoDuplicates(rs)
    ensures SectionOf(index, rs) == SectionOf(index, ss)
    ensures SectionCompiles(index, rs, max) ==> SectionCompiles(index, ss, max)
  {
    hide Group;
    hide ContextOf;
    hide SectionKeys;
    hide RecordValid;
    SectionKeysReordered(index, rs, ss, k);
    forall key ensures ContextOf(index, rs, key) == ContextOf(index, ss, key)
                    && |Group(index, rs, key)| == |Group(index, ss, key)| {
      ContextOfReordered(index, rs, ss, key);
    }
    RecordsValidReordered(rs, ss);
  }

  lemma RecordsValidReordered(rs: seq<NgramRecord>, ss: seq<NgramRecord>)
    requires multiset(rs) == multiset(ss)
    ensures RecordsValid(rs) ==> RecordsValid(ss)
  {
    hide RecordValid;
    SameElements(rs, ss);
    if RecordsValid(rs) {
      DistinctPermutation(rs, ss);
      forall i | 0 <= i < |ss| ensures exists j :: 0 <= j < |rs| && rs[j] == ss[i] {
        assert ss[i] in ss;
      }
      forall i, j | 0 <= i < j < |ss| ensures ss[i].context != ss[j].context || ss[i].next != ss[j].next {
        var a :| 0 <= a < |rs| && rs[a] == ss[i];
        var b :| 0 <= b < |rs| && rs[b] == ss[j];
      }
    }
  }

  // Conservation

  function PredictionCount(cs: seq<Context>): nat {
    if cs == [] then 0 else PredictionCount(Init(cs)) + |Last(cs).predictions|
  }

  function InLexiconCount(index: map<Str, nat>, rs: seq<NgramRecord>): nat {
    if rs == [] then 0 else InLexiconCount(index, Init(rs)) + if InLexicon(index, Last(rs)) then 1 else 0
  }

  function GroupTotal(index: map<Str, nat>, rs: seq<NgramRecord>, keys: seq<seq<nat>>): nat {
    if keys == [] then 0 else GroupTotal(index, rs, Init(keys)) + |Group(index, rs, Last(keys))|
  }

  /** One more record belongs to one more group, or to none. */
  lemma {:induction false} GroupTotalStep(index: map<Str, nat>, rs: seq<NgramRecord>, keys: seq<seq<nat>>)
    requires rs != [] && Distinct(keys)
    ensures GroupTotal(index, rs, keys)
            == GroupTotal(index, Init(rs), keys)
               + if InLexicon(index, Last(rs)) && KeyOf(index, Last(rs).context) in keys then 1 else 0
  {
    hide InLexicon;
    if keys != [] {
      GroupTotalStep(index, rs, Init(keys));
      assert keys == Init(keys) + [Last(keys)];
      if InLexicon(index, Last(rs)) {
        assert Last(keys) !in Init(keys);
      }
    }
  }

  lemma {:induction false} GroupTotalIsCount(index: map<Str, nat>, rs: seq<NgramRecord>, keys: seq<seq<nat>>)
    requires Distinct(keys)
    requires forall i | 0 <= i < |rs| && InLexicon(index, rs[i]) :: KeyOf(index, rs[i].context) in keys
    ensures GroupTotal(index, rs, keys) == InLexiconCount(index, rs)
  {
    hide InLexicon;
    if rs == [] {
      NoGroups(index, keys);
    } else {
      GroupTotalStep(index, rs, keys);
      var rest := Init(rs);
      assert forall i | 0 <= i < |rest| :: rest[i] == rs[i];
      GroupTotalIsCount(index, rest, keys);
    }
  }

  lemma {:induction false} NoGroups(index: map<Str, nat>, keys: seq<seq<nat>>)
    ensures GroupTotal(index, [], keys) == 0
  {
    if keys != [] {
      NoGroups(index, Init(keys));
    }
  }

  lemma {:induction false} TotalOfContexts(index: map<Str, nat>, rs: seq<NgramRecord>, cs: seq<Context>,
                                           keys: seq<seq<nat>>)
    requires |cs| == |keys| && forall i | 0 <= i < |cs| :: cs[i] == ContextOf(index, rs, keys[i])
    ensures PredictionCount(cs) == GroupTotal(index, rs, keys)
  {
    hide SortedGroup;
    if cs != [] {
      TotalOfContexts(index, rs, Init(cs), Init(keys));
      SortedGroupMembers(index, rs, Last(keys));
      SortedGroupResolves(index, rs, Last(keys));
    }
  }

  /** No in-lexicon record is lost or repeated: the section holds one prediction for each. */
  lemma SectionKeepsEveryRecord(index: map<Str, nat>, rs: seq<NgramRecord>, k: nat)
    requires KeysBelow(index, 0x1_0000_0000) && forall i | 0 <= i < |rs| :: |rs[i].context| == k
    ensures PredictionCount(SectionOf(index, rs)) == InLexiconCount(index, rs)
  {
    hide Group;
    hide ContextOf;
    SectionKeysAscend(index, rs, k);
    var keys := SectionKeys(index, rs);
    hide SectionKeys;
    TotalOfContexts(index, rs, SectionOf(index, rs), keys);
    forall i | 0 <= i < |rs| && InLexicon(index, rs[i]) ensures KeyOf(index, rs[i].context) in keys {
      assert HasKey(index, rs[i], KeyOf(index, rs[i].context));
    }
    GroupTotalIsCount(index, rs, keys);
  }
}
