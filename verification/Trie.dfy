/** The compact completion trie: flat arrays, an explicit build, and traversals over explicit
    stacks. Words inserted since the last build wait in `pending`. */
module Tries {
  import opened Wrappers
  import opened Orders
  import opened EditDistance
  import opened FuzzyRows
  import opened TrieShape

  /** Entries in insertion order, seen as a map: the last frequency of a word wins. */
  function Latest(entries: seq<Entry>): map<Str, u64> {
    if entries == [] then map[] else Latest(Init(entries))[Last(entries).0 := Last(entries).1]
  }

  lemma LatestAppend(entries: seq<Entry>, e: Entry)
    ensures Latest(entries + [e]) == Latest(entries)[e.0 := e.1]
  {
    assert Init(entries + [e]) == entries;
  }

  lemma LatestOfNone()
    ensures Latest([]) == map[]
  {
  }

  lemma LatestStep(before: seq<Entry>, entries: seq<Entry>, i: nat)
    requires i < |entries|
    ensures Latest(before + entries[..i + 1]) == Latest(before + entries[..i])[entries[i].0 := entries[i].1]
  {
    LatestAppend(before + entries[..i], entries[i]);
    assert (before + entries[..i]) + [entries[i]] == before + entries[..i + 1];
  }

  lemma LatestPending(entries: seq<Entry>, pending: seq<Entry>, e: Entry)
    ensures Latest(entries + (pending + [e])) == Latest(entries + pending)[e.0 := e.1]
  {
    assert entries + (pending + [e]) == (entries + pending) + [e];
    LatestAppend(entries + pending, e);
  }

  function Zip(words: seq<Str>, frequencies: seq<u64>): (r: seq<Entry>)
    requires |words| == |frequencies|
    ensures |r| == |words| && forall i | 0 <= i < |r| :: r[i] == (words[i], frequencies[i])
  {
    seq(|words|, i requires 0 <= i < |words| => (words[i], frequencies[i]))
  }

  lemma ZippedWord(words: seq<Str>, frequencies: seq<u64>, p: Str, w: Str)
    requires |words| == |frequencies|
    ensures (exists i :: 0 <= i < |words| && Zip(words, frequencies)[i].0 == w && p <= w) <==> w in words && p <= w
  {
    if i :| 0 <= i < |words| && words[i] == w {
      assert Zip(words, frequencies)[i].0 == w;
    }
  }

  /** Of strictly sorted entries, the map forgets nothing. */
  lemma {:induction false} LatestOfSorted(words: seq<Str>, frequencies: seq<u64>)
    requires |words| == |frequencies| && StrictlySorted(words)
    ensures
      var m := Latest(Zip(words, frequencies));
      && (forall w :: w in m <==> w in words)
      && (forall i | 0 <= i < |words| :: words[i] in m && m[words[i]] == frequencies[i])
  {
    if words != [] {
      var n := |words| - 1;
      LatestOfSorted(words[..n], frequencies[..n]);
      assert Init(Zip(words, frequencies)) == Zip(words[..n], frequencies[..n]);
      assert words == words[..n] + [words[n]];
      forall i | 0 <= i < n ensures words[i] != words[n] {
        CompareStrFlips(words[i], words[n]);
      }
    }
  }

  /** The pairs listed under a prefix: those of the map, ascending. */
  lemma PrefixMatchesOfMap(words: seq<Str>, frequencies: seq<u64>, p: Str)
    requires |words| == |frequencies| && StrictlySorted(words)
    ensures
      var matches, m := PrefixMatches(Zip(words, frequencies), p), Latest(Zip(words, frequencies));
      && Ascending(matches)
      && forall w, f :: (w, f) in matches <==> w in m && m[w] == f && p <= w
  {
    var entries := Zip(words, frequencies);
    PrefixMatchesAscend(entries, p);
    PrefixMatchesMembers(entries, p);
    LatestOfSorted(words, frequencies);
    hide PrefixMatches;
    hide Latest;
    forall w, f ensures (w, f) in entries <==> w in Latest(entries) && Latest(entries)[w] == f {
      if (w, f) in entries {
        var i :| 0 <= i < |entries| && entries[i] == (w, f);
        assert words[i] == w;
      }
      if w in Latest(entries) {
        var i :| 0 <= i < |words| && words[i] == w;
        assert entries[i] == (w, frequencies[i]);
      }
    }
  }

  /** The words within the radius, in their order. */
  function WordsWithin(words: seq<Str>, q: Str, k: nat): seq<Str> {
    if words == [] then []
    else WordsWithin(Init(words), q, k) + if Distance(Unit, Last(words), q) <= k then [Last(words)] else []
  }

  lemma {:induction false} WordsWithinMembers(words: seq<Str>, q: Str, k: nat)
    ensures forall w :: w in WordsWithin(words, q, k) <==> w in words && Distance(Unit, w, q) <= k
  {
    hide Distance;
    if words != [] {
      WordsWithinMembers(Init(words), q, k);
      assert words == Init(words) + [Last(words)];
    }
  }

  lemma {:induction false} WordsWithinSorted(words: seq<Str>, q: Str, k: nat)
    requires StrictlySorted(words)
    ensures StrictlySorted(WordsWithin(words, q, k))
  {
    hide Distance;
    hide CompareStr;
    if words != [] {
      var rest := Init(words);
      WordsWithinSorted(rest, q, k);
      WordsWithinMembers(rest, q, k);
      var before := WordsWithin(rest, q, k);
      forall i | 0 <= i < |before| ensures StrLess(before[i], Last(words)) {
        assert before[i] in rest;
      }
    }
  }

  /** Payloads of a map's keys. */
  ghost predicate PayloadsOf(m: map<Str, u64>, keys: seq<Str>, payloads: seq<u64>) {
    |payloads| == |keys| && forall i | 0 <= i < |keys| :: keys[i] in m && payloads[i] == m[keys[i]]
  }

  lemma {:induction false} FuzzyPayloads(words: seq<Str>, frequencies: seq<u64>, m: map<Str, u64>, q: Str, k: nat)
    requires PayloadsOf(m, words, frequencies)
    ensures PayloadsOf(m, WordsWithin(words, q, k), FuzzyMatches(Zip(words, frequencies), q, k))
  {
    hide Distance;
    if words != [] {
      FuzzyPayloads(Init(words), Init(frequencies), m, q, k);
      assert Init(Zip(words, frequencies)) == Zip(Init(words), Init(frequencies));
      assert Last(Zip(words, frequencies)) == (Last(words), Last(frequencies));
    }
  }

  /** The payloads of exactly the map's words within the radius, in strictly ascending word order. */
  ghost predicate IsFuzzyAnswer(m: map<Str, u64>, q: Str, k: nat, payloads: seq<u64>) {
    exists found: seq<Str> ::
      && StrictlySorted(found) && PayloadsOf(m, found, payloads)
      && forall w :: w in found <==> w in m && Distance(Unit, w, q) <= k
  }

  lemma FuzzyMatchesOfMap(words: seq<Str>, frequencies: seq<u64>, q: Str, k: nat)
    requires |words| == |frequencies| && StrictlySorted(words)
    ensures IsFuzzyAnswer(Latest(Zip(words, frequencies)), q, k, FuzzyMatches(Zip(words, frequencies), q, k))
  {
    hide Distance;
    hide StrictlySorted;
    hide Latest;
    hide FuzzyMatches;
    var m := Latest(Zip(words, frequencies));
    LatestOfSorted(words, frequencies);
    WordsWithinMembers(words, q, k);
    WordsWithinSorted(words, q, k);
    FuzzyPayloads(words, frequencies, m, q, k);
    assert PayloadsOf(m, WordsWithin(words, q, k), FuzzyMatches(Zip(words, frequencies), q, k));
  }

  lemma SortedEntriesAreMap(words: seq<Str>, frequencies: seq<u64>, m: map<Str, u64>)
    requires |words| == |frequencies| && StrictlySorted(words)
    requires forall w :: w in m <==> w in words
    requires forall i | 0 <= i < |words| :: m[words[i]] == frequencies[i]
    ensures Latest(Zip(words, frequencies)) == m
  {
    LatestOfSorted(words, frequencies);
    var l := Latest(Zip(words, frequencies));
    forall w | w in m ensures w in l && l[w] == m[w] {
      var i :| 0 <= i < |words| && words[i] == w;
    }
  }

  /** The keys of a `BTreeMap`, in its iteration order. */
  method SortedKeys(keys: set<Str>) returns (sorted: seq<Str>)
    ensures StrictlySorted(sorted)
    ensures forall w :: w in sorted <==> w in keys
  {
    sorted := Enumerate(keys);
    sorted := StrictSort(sorted);
  }

  method StrictSort(words: seq<Str>) returns (sorted: seq<Str>)
    requires Distinct(words)
    ensures StrictlySorted(sorted)
    ensures forall w :: w in sorted <==> w in words
  {
    sorted := SortBy(StrLeq, words);
    StrLeqIsTotalOrder();
    SortBySorts(StrLeq, words);
    DistinctPermutation(words, sorted);
    forall i, j | 0 <= i < j < |sorted| ensures StrLess(sorted[i], sorted[j]) {
      assert StrLeq(sorted[i], sorted[j]);
      CompareStrFlips(sorted[i], sorted[j]);
    }
  }

  /** The standard library's binary search over strictly sorted labels. */
  method BinarySearch(labels: seq<char>, c: char) returns (r: Option<nat>)
    requires forall i, j | 0 <= i < j < |labels| :: labels[i] < labels[j]
    ensures r.Some? ==> r.value < |labels| && labels[r.value] == c
    ensures r.None? ==> c !in labels
  {
    var lo, hi := 0, |labels|;
    while lo < hi
      invariant lo <= hi <= |labels|
      invariant forall i | 0 <= i < lo :: labels[i] < c
      invariant forall i | hi <= i < |labels| :: c < labels[i]
    {
      var mid := (lo + hi) / 2;
      if labels[mid] == c {
        return Some(mid);
      } else if labels[mid] < c {
        lo := mid + 1;
      } else {
        hi := mid;
      }
    }
    return None;
  }

  /** The groups of words sharing their letter at `depth`, one run each. */
  method GroupByLetter(sorted: seq<Str>, lo: nat, hi: nat, depth: nat) returns (groups: seq<Group>)
    requires lo <= hi <= |sorted|
    requires forall k | lo <= k < hi :: depth < |sorted[k]|
    requires forall i, j | lo <= i < j < hi :: sorted[i][depth] <= sorted[j][depth]
    ensures GroupsSplit(sorted, depth, lo, hi, groups)
  {
    hide GroupsSplit;
    groups := [];
    NoGroups(sorted, depth, lo);
    var cursor := lo;
    while cursor < hi
      invariant lo <= cursor <= hi
      invariant GroupsSplit(sorted, depth, lo, cursor, groups)
      invariant groups != [] && cursor < hi ==> groups[|groups| - 1].letter < sorted[cursor][depth]
    {
      var letter := sorted[cursor][depth];
      var start := cursor;
      while cursor < hi && sorted[cursor][depth] == letter
        invariant start <= cursor <= hi && (cursor == start ==> cursor < hi)
        invariant forall k | start <= k < cursor :: sorted[k][depth] == letter
        decreases hi - cursor
      {
        cursor := cursor + 1;
      }
      GroupsSplitAppend(sorted, depth, lo, start, cursor, groups, letter);
      groups := groups + [Group(letter, start, cursor)];
    }
  }

  lemma NoGroups(sorted: seq<Str>, depth: nat, lo: nat)
    requires lo <= |sorted|
    ensures GroupsSplit(sorted, depth, lo, lo, [])
  {
  }

  lemma NoLongerPrefix(words: seq<Str>, s: Str, n: nat)
    requires n <= |s| && forall k | 0 <= k < |words| :: !(s[..n] <= words[k])
    ensures forall k | 0 <= k < |words| :: !(s <= words[k])
  {
  }

  datatype Task = Task(lo: nat, hi: nat, depth: nat, node: nat)

  class Trie {
    var labels: seq<char>
    var firstChild: seq<nat>
    var childCount: seq<nat>
    var terminal: seq<Option<nat>>
    var wordText: Str
    var wordSpans: seq<(nat, nat)>
    var wordFrequency: seq<u64>
    var pending: seq<Entry>

    /** The text of each span, and for each node its path and run of words. */
    ghost var words: seq<Str>
    ghost var nodes: seq<Node>

    ghost function Flat(): Shape
      reads this
    {
      Shape(words, labels, firstChild, childCount, terminal, nodes)
    }

    ghost predicate TextValid()
      reads this
    {
      && |words| == |wordSpans| == |wordFrequency|
      && forall k | 0 <= k < |words| ::
           wordSpans[k].0 + wordSpans[k].1 <= |wordText|
           && wordText[wordSpans[k].0..wordSpans[k].0 + wordSpans[k].1] == words[k]
    }

    ghost predicate Valid()
      reads this
    {
      && TextValid()
      && if labels == [] then words == [] else Flat().Valid()
    }

    ghost predicate Empty()
      reads this
    {
      && labels == [] && firstChild == [] && childCount == [] && terminal == []
      && wordText == [] && wordSpans == [] && wordFrequency == [] && words == [] && nodes == []
    }

    predicate IsBuilt()
      reads this
    {
      pending == []
    }

    /** The built words with their frequencies, in sorted order. */
    ghost function Entries(): seq<Entry>
      reads this
      requires TextValid()
    {
      Zip(words, wordFrequency)
    }

    /** What the trie represents: every inserted word with its last frequency. */
    ghost function View(): map<Str, u64>
      reads this
      requires TextValid()
    {
      Latest(Entries() + pending)
    }

    constructor ()
      ensures Valid() && IsBuilt() && View() == map[]
      ensures Empty()
    {
      labels, firstChild, childCount, terminal := [], [], [], [];
      wordText, wordSpans, wordFrequency, pending := [], [], [], [];
      words, nodes := [], [];
    }

    method Insert(word: Str, frequency: u64)
      requires Valid()
      modifies this
      ensures Valid()
      ensures View() == old(View())[word := frequency]
      ensures Entries() == old(Entries())
    {
      hide Latest;
      hide Shape.Valid;
      LatestPending(Entries(), pending, (word, frequency));
      pending := pending + [(word, frequency)];
    }

    function Word(k: nat): Str
      reads this
      requires k < |wordSpans| && wordSpans[k].0 + wordSpans[k].1 <= |wordText|
    {
      wordText[wordSpans[k].0..wordSpans[k].0 + wordSpans[k].1]
    }

    /** Compacts all recorded words; the map they represent stays the same. */
    method Build()
      requires Valid()
      modifies this
      ensures Valid() && IsBuilt() && labels != []
      ensures View() == old(View())
    {
      if pending == [] && labels != [] {
        return;
      }
      var merged := MergeWords();
      var sorted := SortedKeys(merged.Keys);
      var built := new Trie();
      built.StoreWords(sorted, merged);
      built.BuildChildren(sorted);
      SortedEntriesAreMap(sorted, built.wordFrequency, merged);
      Adopt(built);
    }

    /** Assigns every field of a freshly built trie. */
    method Adopt(built: Trie)
      requires built.Valid() && built.labels != []
      modifies this
      ensures Valid() && IsBuilt() && labels == old(built.labels)
      ensures View() == old(Latest(built.Entries()))
    {
      hide Latest;
      hide Shape.Valid;
      hide Zip;
      ghost var entries := built.Entries();
      assert entries + [] == entries;
      labels, firstChild, childCount, terminal := built.labels, built.firstChild, built.childCount, built.terminal;
      wordText, wordSpans, wordFrequency, pending := built.wordText, built.wordSpans, built.wordFrequency, [];
      words, nodes := built.words, built.nodes;
      assert Flat() == old(built.Flat());
      assert Entries() == entries;
    }

    /** Previously built words, overridden by the pending ones in insertion order. */
    method MergeWords() returns (merged: map<Str, u64>)
      requires Valid()
      ensures merged == View()
    {
      hide Latest;
      hide Shape.Valid;
      hide Zip;
      merged := map[];
      LatestOfNone();
      ghost var entries := Entries();
      for k := 0 to |wordSpans|
        invariant merged == Latest(entries[..k])
      {
        LatestStep([], entries, k);
        assert [] + entries[..k] == entries[..k] && [] + entries[..k + 1] == entries[..k + 1];
        merged := merged[Word(k) := wordFrequency[k]];
      }
      assert entries[..|wordSpans|] == entries + pending[..0];
      for i := 0 to |pending|
        invariant merged == Latest(entries + pending[..i])
      {
        LatestStep(entries, pending, i);
        merged := merged[pending[i].0 := pending[i].1];
      }
      assert pending[..|pending|] == pending;
    }

    /** Lays out the text of the words and allocates the root. */
    method StoreWords(sorted: seq<Str>, frequencies: map<Str, u64>)
      requires Empty()
      requires StrictlySorted(sorted) && forall w | w in sorted :: w in frequencies
      modifies this
      ensures TextValid() && words == sorted && pending == old(pending)
      ensures forall i | 0 <= i < |sorted| :: wordFrequency[i] == frequencies[sorted[i]]
      ensures |labels| == 1 && Flat().Framed()
    {
      StoreText(sorted, frequencies);
      labels, firstChild, childCount, terminal := ['\0'], [0], [0], [None];
      nodes := [Node([], 0, |words|)];
    }

    method StoreText(sorted: seq<Str>, frequencies: map<Str, u64>)
      requires TextValid() && words == []
      requires forall w | w in sorted :: w in frequencies
      modifies this`words, this`wordSpans, this`wordText, this`wordFrequency
      ensures TextValid() && words == sorted
      ensures forall i | 0 <= i < |sorted| :: wordFrequency[i] == frequencies[sorted[i]]
    {
      for i := 0 to |sorted|
        invariant words == sorted[..i] && TextValid()
        invariant forall k | 0 <= k < i :: wordFrequency[k] == frequencies[sorted[k]]
      {
        StoreWord(sorted[i], frequencies[sorted[i]]);
      }
    }

    method StoreWord(w: Str, frequency: u64)
      requires TextValid()
      modifies this`words, this`wordSpans, this`wordText, this`wordFrequency
      ensures TextValid() && words == old(words) + [w] && wordFrequency == old(wordFrequency) + [frequency]
    {
      wordSpans := wordSpans + [(|wordText|, |w|)];
      wordText := wordText + w;
      wordFrequency := wordFrequency + [frequency];
      words := words + [w];
      forall k | 0 <= k < |words| - 1
        ensures wordText[wordSpans[k].0..wordSpans[k].0 + wordSpans[k].1] == words[k]
      {
        assert wordSpans[k] == old(wordSpans)[k];
        assert wordText[..|old(wordText)|] == old(wordText);
      }
    }

    /** Gives `node` its children: one per group of words by the letter at `depth`. */
    method ExpandNode(sorted: seq<Str>, task: Task) returns (groups: seq<Group>)
      requires words == sorted && Flat().Framed() && task.node < |nodes| && Flat().Covers(task.node)
      requires nodes[task.node].lo == task.lo && nodes[task.node].hi == task.hi
      requires |nodes[task.node].path| == task.depth
      modifies this`labels, this`firstChild, this`childCount, this`terminal, this`nodes
      ensures Expanded(old(Flat()), Flat(), task.node, groups)
      ensures Flat().Covers(task.node) && Flat().TerminalRight(task.node)
      ensures GroupsSplit(words, task.depth, Flat().BodyStart(task.node), task.hi, groups)
    {
      hide GroupsSplit;
      hide StrictlySorted;
      ghost var sh := Flat();
      groups := MarkTerminal(sorted, task);
      ghost var mid := Flat();
      AppendChildren(task.node, groups);
      ExpandedAfterTerminal(sh, mid, Flat(), task.node, groups);
    }

    /** A word of exactly `depth` letters ends at the node; the others are grouped. */
    method MarkTerminal(sorted: seq<Str>, task: Task) returns (groups: seq<Group>)
      requires words == sorted && Flat().Framed() && task.node < |nodes| && Flat().Covers(task.node)
      requires nodes[task.node].lo == task.lo && nodes[task.node].hi == task.hi
      requires |nodes[task.node].path| == task.depth
      modifies this`terminal
      ensures Flat().Framed() && Flat() == old(Flat()).(terminal := terminal)
      ensures terminal == old(terminal)[task.node := terminal[task.node]]
      ensures Flat().TerminalRight(task.node)
      ensures GroupsSplit(words, task.depth, Flat().BodyStart(task.node), task.hi, groups)
    {
      var Task(lo, hi, depth, node) := task;
      var cursor := lo;
      if cursor < hi && |sorted[cursor]| == depth {
        terminal := terminal[node := Some(cursor)];
        cursor := cursor + 1;
      } else {
        terminal := terminal[node := None];
      }
      RunIsGroupable(Flat(), node, cursor);
      groups := GroupByLetter(sorted, cursor, hi, depth);
    }

    /** A new node without children, pushed on every array. */
    method PushNode(ghost path: Str, group: Group)
      modifies this`labels, this`firstChild, this`childCount, this`terminal, this`nodes
      ensures Flat() == AppendChild(old(Flat()), path, group)
    {
      labels := labels + [group.letter];
      firstChild := firstChild + [0];
      childCount := childCount + [0];
      terminal := terminal + [None];
      nodes := nodes + [Node(path + [group.letter], group.start, group.end)];
    }

    method AppendChildren(node: nat, groups: seq<Group>)
      requires Flat().Framed() && node < |nodes|
      modifies this`labels, this`firstChild, this`childCount, this`terminal, this`nodes
      ensures Expanded(old(Flat()), Flat(), node, groups)
      ensures terminal[..|old(terminal)|] == old(terminal)
    {
      hide Expanded;
      hide Appending;
      hide Shape.Framed;
      ghost var sh := Flat();
      FramedLengths(sh);
      var first := |labels|;
      ghost var path := nodes[node].path;
      firstChild := firstChild[node := first];
      childCount := childCount[node := |groups|];
      NothingAppended(sh, Flat(), node, groups);
      for i := 0 to |groups|
        invariant Appending(sh, Flat(), node, groups, i)
      {
        AppendingStep(sh, Flat(), node, groups, i);
        PushNode(path, groups[i]);
      }
      AppendedIsExpanded(sh, Flat(), node, groups);
    }

    /** The tasks on the stack are the open nodes, with their runs and depths. */
    ghost predicate TasksMatch(stack: seq<Task>, open: seq<nat>)
      reads this
    {
      && |open| == |stack|
      && forall i | 0 <= i < |stack| ::
           var Task(lo, hi, depth, node) := stack[i];
           open[i] == node && node < |nodes|
           && nodes[node].lo == lo && nodes[node].hi == hi && |nodes[node].path| == depth
    }

    /** Creates the children of every node from the sorted words with an explicit work stack.
        Each turn either ends a word or goes one letter deeper into the next one. */
    method BuildChildren(sorted: seq<Str>)
      requires TextValid() && words == sorted && Flat().Framed() && |labels| == 1
      modifies this`labels, this`firstChild, this`childCount, this`terminal, this`nodes
      ensures Valid() && labels != []
    {
      var stack: seq<Task> := [Task(0, |sorted|, 0, 0)];
      ghost var open: seq<nat> := [0];
      ghost var pos := 0;
      RootIsGrowing(Flat());
      while stack != []
        invariant words == sorted && pos <= |words|
        invariant TasksMatch(stack, open)
        invariant Growing(Flat(), open) && Flat().Chain(open, pos, |words|)
        decreases |words| - pos, Headroom(Flat(), open, pos), |stack|
      {
        stack, open, pos := BuildStep(sorted, stack, open, pos);
      }
    }

    method BuildStep(sorted: seq<Str>, stack0: seq<Task>, ghost open0: seq<nat>, ghost pos0: nat)
      returns (stack: seq<Task>, ghost open: seq<nat>, ghost pos: nat)
      requires stack0 != [] && words == sorted && pos0 <= |words|
      requires TasksMatch(stack0, open0)
      requires Growing(Flat(), open0) && Flat().Chain(open0, pos0, |words|)
      modifies this`labels, this`firstChild, this`childCount, this`terminal, this`nodes
      ensures pos <= |words| && TasksMatch(stack, open)
      ensures Growing(Flat(), open) && Flat().Chain(open, pos, |words|)
      ensures Closer(Flat(), open, pos, open0, pos0)
      ensures Headroom(Flat(), open0, pos0) == old(Headroom(Flat(), open0, pos0))
    {
      var task := stack0[|stack0| - 1];
      ghost var sh := Flat();
      var first := |labels|;
      var groups := ExpandNode(sorted, task);
      ExpandGrows(sh, Flat(), open0, groups, |words|);
      NodeIsCloser(sh, Flat(), open0, groups);
      pos := Flat().BodyStart(task.node);
      open := PushDown(open0[..|open0| - 1], first, |groups|);
      stack := PushTasks(stack0[..|stack0| - 1], open0[..|open0| - 1], first, task.depth + 1, groups);
    }

    /** Child tasks are pushed in reverse, so that the first child is processed first. */
    method PushTasks(stack0: seq<Task>, ghost open0: seq<nat>, first: nat, depth: nat, groups: seq<Group>)
      returns (stack: seq<Task>)
      requires TasksMatch(stack0, open0)
      requires first + |groups| == |nodes|
      requires forall i | first <= i < first + |groups| ::
                 nodes[i].lo == groups[i - first].start && nodes[i].hi == groups[i - first].end
                 && |nodes[i].path| == depth
      ensures TasksMatch(stack, PushDown(open0, first, |groups|))
    {
      stack := stack0;
      ghost var open: seq<nat> := open0;
      for i := |groups| downto 0
        invariant TasksMatch(stack, open)
        invariant PushDown(open, first, i) == PushDown(open0, first, |groups|)
      {
        stack := stack + [Task(groups[i].start, groups[i].end, depth, first + i)];
        open := open + [first + i];
        assert nodes[first + i].lo == groups[i].start;
      }
    }

    /** The node reached by following `s` from the root, if every letter has a child. */
    method Walk(s: Str) returns (r: Option<nat>)
      requires Valid() && IsBuilt()
      ensures r.Some? ==>
                labels != [] && r.value < |nodes| && nodes[r.value].path == s && Exact(Flat(), r.value)
      ensures r.None? ==> forall k | 0 <= k < |words| :: !(s <= words[k])
    {
      if labels == [] {
        return None;
      }
      var node: nat := 0;
      RootIsExact(Flat());
      for i := 0 to |s|
        invariant node < |nodes| && nodes[node].path == s[..i] && Exact(Flat(), node)
      {
        var child := Child(node, s[i]);
        assert s[..i] + [s[i]] == s[..i + 1];
        WalkStep(Flat(), node, s[i]);
        if child.None? {
          NoLongerPrefix(words, s, i + 1);
          return None;
        }
        assert Flat().Done(node);
        node := child.value;
      }
      assert s[..|s|] == s;
      return Some(node);
    }

    method Child(node: nat, c: char) returns (r: Option<nat>)
      requires Valid() && labels != [] && node < |nodes|
      ensures r.Some? ==> Flat().IsChild(node, r.value) && labels[r.value] == c
      ensures r.None? ==> forall i | Flat().IsChild(node, i) :: labels[i] != c
    {
      assert Flat().Done(node);
      var first, count := firstChild[node], childCount[node];
      var children := labels[first..first + count];
      var idx := BinarySearch(children, c);
      if idx.None? {
        forall i | Flat().IsChild(node, i) ensures labels[i] != c {
          assert labels[i] == children[i - first];
        }
        return None;
      }
      return Some(first + idx.value);
    }

    /** Exact membership. */
    method Contains(word: Str) returns (r: bool)
      requires Valid() && IsBuilt()
      ensures r <==> word in View()
    {
      var node := Walk(word);
      assert Entries() + [] == Entries();
      MembersOfView();
      if node.None? {
        return false;
      }
      EndsAtNode(Flat(), node.value);
      return terminal[node.value].Some?;
    }

    lemma WordsAreSorted()
      requires Valid()
      ensures StrictlySorted(words)
    {
    }

    lemma MembersOfView()
      requires Valid() && IsBuilt()
      ensures forall w :: w in View() <==> w in words
    {
      assert Entries() + [] == Entries();
      LatestOfSorted(words, wordFrequency);
    }

    /** The words listed under a prefix are the represented words with that prefix. */
    lemma MatchesOfView(prefix: Str)
      requires Valid() && IsBuilt()
      ensures forall w :: Lists(PrefixMatches(Entries(), prefix), w) <==> w in View() && prefix <= w
    {
      hide Shape.Valid;
      hide PrefixMatches;
      hide Latest;
      MembersOfView();
      forall w
        ensures Lists(PrefixMatches(Entries(), prefix), w) <==> w in words && prefix <= w
      {
        PrefixMatchesWords(Entries(), prefix, w);
        ZippedWord(words, wordFrequency, prefix, w);
      }
    }

    lemma PairsOfView(prefix: Str)
      requires Valid() && IsBuilt()
      ensures Ascending(PrefixMatches(Entries(), prefix))
      ensures forall w, f ::
                (w, f) in PrefixMatches(Entries(), prefix) <==> w in View() && View()[w] == f && prefix <= w
    {
      hide Shape.Valid;
      hide PrefixMatches;
      hide Latest;
      hide Ascending;
      assert Entries() + [] == Entries();
      WordsAreSorted();
      PrefixMatchesOfMap(words, wordFrequency, prefix);
    }

    lemma FuzzyOfView(query: Str, maxDist: nat)
      requires Valid() && IsBuilt()
      ensures IsFuzzyAnswer(View(), query, maxDist, FuzzyMatches(Entries(), query, maxDist))
    {
      hide Shape.Valid;
      hide FuzzyMatches;
      hide Latest;
      hide IsFuzzyAnswer;
      assert Entries() + [] == Entries();
      WordsAreSorted();
      FuzzyMatchesOfMap(words, wordFrequency, query, maxDist);
    }

    /** All words with the prefix, with their frequencies, in lexicographic order. */
    method FindByPrefix(prefix: Str) returns (results: seq<Entry>)
      requires Valid() && IsBuilt()
      ensures results == PrefixMatches(Entries(), prefix)
      ensures Ascending(results)
      ensures forall w, f :: (w, f) in results <==> w in View() && View()[w] == f && prefix <= w
    {
      hide Latest;
      hide Ascending;
      hide View;
      PairsOfView(prefix);
      var node := Walk(prefix);
      if node.None? {
        NoPrefixMatch(Entries(), prefix);
        return [];
      }
      results := CollectWords(node.value);
      assert Flat().Covers(node.value);
      PrefixRun(Entries(), prefix, nodes[node.value].lo, nodes[node.value].hi);
    }

    /** Depth-first, first child first: the words below a node, in order. */
    method CollectWords(start: nat) returns (results: seq<Entry>)
      requires Valid() && labels != [] && start < |nodes|
      requires Flat().Covers(start)
      ensures results == Entries()[nodes[start].lo..nodes[start].hi]
    {
      hide Shape.Valid;
      hide Shape.Chain;
      hide Headroom;
      hide PushDown;
      results := [];
      var stack: seq<nat> := [start];
      ghost var lo, hi := nodes[start].lo, nodes[start].hi;
      ghost var pos := lo;
      ChainStart(Flat(), start);
      while stack != []
        invariant lo <= pos <= |words| && Flat().Chain(stack, pos, hi)
        invariant results == Entries()[lo..pos]
        decreases |words| - pos, Headroom(Flat(), stack, pos), |stack|
      {
        var node := stack[|stack| - 1];
        VisitFacts(stack, pos, hi);
        var k := terminal[node];
        if k.Some? {
          results := results + [(Word(k.value), wordFrequency[k.value])];
        }
        pos := Flat().BodyStart(node);
        stack := PushChildren(stack[..|stack| - 1], node);
      }
      ChainEnds(Flat(), pos, hi);
    }

    /** What a traversal needs to know when it pops a node. */
    lemma VisitFacts(stack: seq<nat>, pos: nat, hi: nat)
      requires Valid() && labels != [] && stack != [] && Flat().Chain(stack, pos, hi)
      ensures
        var n := stack[|stack| - 1];
        && n < |nodes| == |terminal| == |firstChild| == |childCount| && nodes[n].lo == pos
        && pos <= Flat().BodyStart(n) <= |words|
        && Closer(Flat(), PushDown(stack[..|stack| - 1], firstChild[n], childCount[n]), Flat().BodyStart(n), stack, pos)
        && Flat().Chain(PushDown(stack[..|stack| - 1], firstChild[n], childCount[n]), Flat().BodyStart(n), hi)
        && (terminal[n].Some? ==>
              terminal[n].value == pos < |words| == |wordFrequency| && Flat().BodyStart(n) == pos + 1
              && (Word(pos), wordFrequency[pos]) == Entries()[pos])
        && (terminal[n].None? ==> Flat().BodyStart(n) == pos)
    {
      var n := stack[|stack| - 1];
      NodeFacts(n);
      ChildrenAreCloser(Flat(), stack);
      PushDownChain(Flat(), stack[..|stack| - 1], n, childCount[n], hi);
    }

    lemma NodeFacts(n: nat)
      requires Valid() && labels != [] && n < |nodes|
      ensures Flat().Covers(n) && Flat().Done(n)
      ensures Flat().BodyStart(n) <= nodes[n].hi
      ensures terminal[n].Some? ==>
                terminal[n].value == nodes[n].lo < |words|
                && Word(nodes[n].lo) == words[nodes[n].lo] == nodes[n].path
                && (Word(nodes[n].lo), wordFrequency[nodes[n].lo]) == Entries()[nodes[n].lo]
    {
      assert Flat().Covers(n) && Flat().Done(n);
      if terminal[n].Some? {
        assert nodes[n].path <= words[nodes[n].lo];
      }
    }

    lemma ChildFacts(n: nat)
      requires Valid() && labels != [] && n < |nodes|
      ensures |labels| == |firstChild| == |childCount| == |nodes|
      ensures 0 < firstChild[n] && firstChild[n] + childCount[n] <= |nodes|
      ensures forall i | firstChild[n] <= i < firstChild[n] + childCount[n] ::
                nodes[i].path == nodes[n].path + [labels[i]]
    {
      NodeFacts(n);
    }

    method PushChildren(stack0: seq<nat>, node: nat) returns (stack: seq<nat>)
      requires node < |firstChild| && node < |childCount|
      ensures stack == PushDown(stack0, firstChild[node], childCount[node])
    {
      stack := stack0;
      var first, count := firstChild[node], childCount[node];
      for child := first + count downto first
        invariant PushDown(stack, first, child - first) == PushDown(stack0, first, count)
      {
        stack := stack + [child];
      }
    }

    /** Every waiting node knows its depth, hangs below the current path, and the depths do not
        grow towards the bottom of the stack. */
    ghost predicate StackMatches(stack: seq<(nat, nat)>, open: seq<nat>, path: Str)
      reads this
    {
      && |open| == |stack|
      && (forall i | 0 <= i < |stack| ::
            var (n, d) := stack[i];
            && open[i] == n && 0 < n < |nodes| && n < |labels|
            && |nodes[n].path| == d >= 1 && nodes[n].path[d - 1] == labels[n]
            && nodes[n].path[..d - 1] <= path)
      && (forall i, j | 0 <= i < j < |stack| :: stack[i].1 <= stack[j].1)
    }

    /** Truncating the path to the popped node's depth and appending its letter gives its path,
        and the nodes still waiting hang below that path, too. */
    lemma PathOfPopped(stack: seq<(nat, nat)>, open: seq<nat>, path: Str)
      requires stack != [] && StackMatches(stack, open, path)
      ensures
        var (n, d) := stack[|stack| - 1];
        && d - 1 <= |path| && path[..d - 1] + [labels[n]] == nodes[n].path
        && StackMatches(stack[..|stack| - 1], open[..|open| - 1], nodes[n].path)
    {
      var (n, d) := stack[|stack| - 1];
      var path' := nodes[n].path;
      assert path'[..d - 1] == path[..d - 1];
      forall i | 0 <= i < |stack| - 1 ensures nodes[stack[i].0].path[..stack[i].1 - 1] <= path' {
        var p := nodes[stack[i].0].path[..stack[i].1 - 1];
        assert p <= path && |p| <= d - 1;
      }
    }

    lemma MatchesPushed(stack: seq<(nat, nat)>, open: seq<nat>, node: nat, child: nat)
      requires node < |nodes| && 0 < child < |nodes| && child < |labels|
      requires nodes[child].path == nodes[node].path + [labels[child]]
      requires StackMatches(stack, open, nodes[node].path)
      requires forall i | 0 <= i < |stack| :: stack[i].1 <= |nodes[node].path| + 1
      ensures StackMatches(stack + [(child, |nodes[node].path| + 1)], open + [child], nodes[node].path)
    {
    }

    method PushDeeper(stack0: seq<(nat, nat)>, ghost open0: seq<nat>, node: nat, depth: nat)
      returns (stack: seq<(nat, nat)>)
      requires Valid() && labels != [] && node < |nodes| && depth == |nodes[node].path|
      requires StackMatches(stack0, open0, nodes[node].path)
      requires forall i | 0 <= i < |stack0| :: stack0[i].1 <= depth + 1
      ensures StackMatches(stack, PushDown(open0, firstChild[node], childCount[node]), nodes[node].path)
    {
      hide PushDown;
      hide StackMatches;
      hide Valid;
      ChildFacts(node);
      stack := stack0;
      ghost var open: seq<nat> := open0;
      var first, count := firstChild[node], childCount[node];
      for child := first + count downto first
        invariant StackMatches(stack, open, nodes[node].path)
        invariant forall i | 0 <= i < |stack| :: stack[i].1 <= depth + 1
        invariant PushDown(open, first, child - first) == PushDown(open0, first, count)
      {
        PushDownStep(open, first, child + 1 - first);
        MatchesPushed(stack, open, node, child);
        stack := stack + [(child, depth + 1)];
        open := open + [child];
      }
      PushDownNone(open, first);
    }

    /** The entries up to the body of a node, given those before the node. */
    lemma FuzzyVisit(n: nat, query: Str, k: nat)
      requires Valid() && labels != [] && n < |nodes|
      ensures Flat().BodyStart(n) <= |words| == |Entries()| && nodes[n].lo <= |words|
      ensures terminal[n].Some? ==> terminal[n].value < |wordFrequency|
      ensures
        FuzzyMatches(Entries()[..Flat().BodyStart(n)], query, k)
        == FuzzyMatches(Entries()[..nodes[n].lo], query, k)
           + if terminal[n].Some? && Distance(Unit, nodes[n].path, query) <= k
             then [wordFrequency[terminal[n].value]] else []
    {
      hide Distance;
      hide Shape.Valid;
      Lengths();
      NodeFacts(n);
      if terminal[n].Some? {
        FuzzyExtend(Entries(), query, k, nodes[n].lo);
      }
    }

    /** A pruned node: none of its words is within reach. */
    lemma FuzzyPrune(open: seq<nat>, query: Str, k: nat)
      requires Valid() && labels != [] && open != [] && 0 < open[|open| - 1] < |nodes|
      requires RowAbove(nodes[open[|open| - 1]].path, query, k)
      ensures
        var Node(_, lo, hi) := nodes[open[|open| - 1]];
        && lo < hi <= |words| == |Entries()|
        && FuzzyMatches(Entries()[..hi], query, k) == FuzzyMatches(Entries()[..lo], query, k)
    {
      hide Distance;
      hide Shape.Valid;
      var n := open[|open| - 1];
      var Node(path, lo, hi) := nodes[n];
      NodeFacts(n);
      forall i | lo <= i < hi ensures Distance(Unit, Entries()[i].0, query) > k {
        SubtreePruned(path, words[i], query, k);
      }
      FuzzySkip(Entries(), query, k, lo, hi);
    }

    lemma Lengths()
      requires Valid() && labels != []
      ensures |labels| == |firstChild| == |childCount| == |terminal| == |nodes|
      ensures nodes[0] == Node([], 0, |words|)
    {
    }

    /** Row 0 belongs to the empty path; the root's own word, if any, is decided by it. */
    method FuzzyStart(query: Str, maxDist: nat) returns (
        results: seq<u64>, rows: seq<nat>, stack: seq<(nat, nat)>, ghost open: seq<nat>, ghost pos: nat)
      requires Valid() && labels != []
      ensures pos <= |words| == |Entries()|
      ensures StackMatches(stack, open, []) && Flat().Chain(open, pos, |words|)
      ensures RowsHold(rows, |query| + 1, [], query)
      ensures results == FuzzyMatches(Entries()[..pos], query, maxDist)
    {
      hide Distance;
      hide Shape.Valid;
      Lengths();
      rows := seq(|query| + 1, j => j);
      FirstRow(rows, query);
      RootDistance(query);
      results := [];
      FuzzyVisit(0, query, maxDist);
      if terminal[0].Some? && rows[|query|] <= maxDist {
        results := results + [wordFrequency[terminal[0].value]];
      }
      stack := PushDeeper([], [], 0, 0);
      NodeFacts(0);
      PushDownChain(Flat(), [], 0, childCount[0], |words|);
      open, pos := PushDown([], firstChild[0], childCount[0]), Flat().BodyStart(0);
    }

    /** One turn of the search: the popped node's row, its word, and its children unless every
        entry of the row exceeds the bound. */
    method FuzzyStep(query: Str, maxDist: nat, stack0: seq<(nat, nat)>, path0: Str, rows0: seq<nat>,
                     results0: seq<u64>, ghost open0: seq<nat>, ghost pos0: nat)
      returns (results: seq<u64>, stack: seq<(nat, nat)>, path: Str, rows: seq<nat>,
               ghost open: seq<nat>, ghost pos: nat)
      requires Valid() && labels != [] && stack0 != [] && pos0 <= |words| == |Entries()|
      requires StackMatches(stack0, open0, path0) && Flat().Chain(open0, pos0, |words|)
      requires RowsHold(rows0, |query| + 1, path0, query)
      requires results0 == FuzzyMatches(Entries()[..pos0], query, maxDist)
      ensures pos <= |words|
      ensures StackMatches(stack, open, path) && Flat().Chain(open, pos, |words|)
      ensures RowsHold(rows, |query| + 1, path, query)
      ensures results == FuzzyMatches(Entries()[..pos], query, maxDist)
      ensures Closer(Flat(), open, pos, open0, pos0)
    {
      hide Distance;
      hide Shape.Valid;
      hide RowsHold;
      hide FuzzyMatches;
      hide PushDown;
      hide Headroom;
      var (node, depth) := stack0[|stack0| - 1];
      PathOfPopped(stack0, open0, path0);
      VisitFacts(open0, pos0, |words|);
      FuzzyVisit(node, query, maxDist);
      stack, open := stack0[..|stack0| - 1], open0[..|open0| - 1];
      path := path0[..depth - 1];
      RowsOfPrefix(rows0, |query| + 1, path0, query, depth - 1);
      path := path + [labels[node]];
      assert Init(path) == path0[..depth - 1];
      var cur, rowMin;
      rows, cur, rowMin := WriteRow(rows0, |query| + 1, path, query);
      MinimumPrunes(cur, rowMin, path, query, maxDist);
      assert query[..|query|] == query;
      results := results0;
      if terminal[node].Some? && cur[|query|] <= maxDist {
        results := results + [wordFrequency[terminal[node].value]];
      }
      if rowMin <= maxDist {
        stack := PushDeeper(stack, open, node, depth);
        open, pos := PushDown(open, firstChild[node], childCount[node]), Flat().BodyStart(node);
      } else {
        FuzzyPrune(open0, query, maxDist);
        pos := nodes[node].hi;
      }
    }

    /** Payloads of every word whose unit distance from the query is at most `maxDist`. */
    method FuzzyTerminals(query: Str, maxDist: nat) returns (results: seq<u64>)
      requires Valid() && IsBuilt()
      ensures results == FuzzyMatches(Entries(), query, maxDist)
      ensures IsFuzzyAnswer(View(), query, maxDist, results)
    {
      hide IsFuzzyAnswer;
      hide View;
      hide Latest;
      hide FuzzyMatches;
      FuzzyOfView(query, maxDist);
      hide Distance;
      hide Shape.Valid;
      hide Shape.Chain;
      hide Headroom;
      hide RowsHold;
      hide StackMatches;
      results := [];
      if labels == [] {
        NoFuzzyMatch(query, maxDist);
        return;
      }
      var path: Str := [];
      var stack, rows;
      ghost var open, pos;
      results, rows, stack, open, pos := FuzzyStart(query, maxDist);
      while stack != []
        invariant pos <= |words| == |Entries()|
        invariant StackMatches(stack, open, path) && Flat().Chain(open, pos, |words|)
        invariant RowsHold(rows, |query| + 1, path, query)
        invariant results == FuzzyMatches(Entries()[..pos], query, maxDist)
        decreases |words| - pos, Headroom(Flat(), open, pos), |open|
      {
        results, stack, path, rows, open, pos :=
          FuzzyStep(query, maxDist, stack, path, rows, results, open, pos);
      }
      EmptyStack(open, path);
      ChainEnds(Flat(), pos, |words|);
      assert Entries()[..|words|] == Entries();
    }

    lemma NoFuzzyMatch(query: Str, maxDist: nat)
      requires Valid() && IsBuilt() && labels == []
      ensures FuzzyMatches(Entries(), query, maxDist) == []
    {
    }

    lemma EmptyStack(open: seq<nat>, path: Str)
      requires StackMatches([], open, path)
      ensures open == []
    {
    }
  }
}
