/** The flat trie as a value, and what its arrays mean. Ghost information gives every node the
    path that leads to it and the run `words[lo..hi]` of sorted words below it; a traversal is
    then correct because the runs on its stack follow one another without gaps. */
module TrieShape {
  import opened Wrappers
  import opened Orders

  datatype Node = Node(path: Str, lo: nat, hi: nat)

  datatype Shape = Shape(
    words: seq<Str>,
    labels: seq<char>,
    firstChild: seq<nat>,
    childCount: seq<nat>,
    terminal: seq<Option<nat>>,
    nodes: seq<Node>)
  {
    /** Parallel arrays, sorted words, and a root above all of them. */
    ghost predicate Framed() {
      && StrictlySorted(words)
      && |labels| == |firstChild| == |childCount| == |terminal| == |nodes|
      && labels != []
      && nodes[0] == Node([], 0, |words|)
    }

    /** Every word in the node's run starts with the node's path. */
    ghost predicate Covers(n: nat)
      requires n < |nodes|
    {
      && nodes[n].lo <= nodes[n].hi <= |words|
      && (n > 0 ==> nodes[n].lo < nodes[n].hi)
      && forall k | nodes[n].lo <= k < nodes[n].hi :: nodes[n].path <= words[k]
    }

    ghost predicate AllCover() {
      forall n | 0 <= n < |nodes| :: Covers(n)
    }

    ghost predicate TerminalRight(n: nat)
      requires n < |nodes| == |terminal| && Covers(n)
    {
      var Node(path, lo, hi) := nodes[n];
      terminal[n] == if lo < hi && |words[lo]| == |path| then Some(lo) else None
    }

    /** Where the run of the node's first child begins. */
    ghost function BodyStart(n: nat): nat
      requires n < |nodes| == |terminal|
    {
      nodes[n].lo + if terminal[n].Some? then 1 else 0
    }

    ghost predicate IsChild(n: nat, i: int)
      requires n < |nodes| == |firstChild| == |childCount|
    {
      firstChild[n] <= i < firstChild[n] + childCount[n] && i < |nodes|
    }

    /** The children are contiguous, strictly sorted by label, and split the node's run. */
    ghost predicate ChildrenRight(n: nat)
      requires n < |nodes| == |labels| == |firstChild| == |childCount| == |terminal|
    {
      var f, c := firstChild[n], childCount[n];
      && 0 < f && f + c <= |nodes|
      && (c == 0 ==> BodyStart(n) == nodes[n].hi)
      && (c > 0 ==> nodes[f].lo == BodyStart(n) && nodes[f + c - 1].hi == nodes[n].hi)
      && (forall i | f <= i < f + c :: nodes[i].path == nodes[n].path + [labels[i]])
      && (forall i, j | f <= i < j < f + c && j == i + 1 :: nodes[i].hi == nodes[j].lo)
      && (forall i, j | f <= i < j < f + c :: labels[i] < labels[j])
    }

    ghost predicate Done(n: nat)
      requires n < |nodes| == |labels| == |firstChild| == |childCount| == |terminal| && Covers(n)
    {
      TerminalRight(n) && ChildrenRight(n)
    }

    ghost predicate Valid() {
      Framed() && AllCover() && forall n | 0 <= n < |nodes| :: Done(n)
    }

    /** The runs of the nodes on a stack, from the top down, go from `pos` to `end`. */
    ghost predicate Chain(stack: seq<nat>, pos: nat, end: nat) {
      if stack == [] then pos == end
      else
        var top := stack[|stack| - 1];
        top < |nodes| && nodes[top].lo == pos && Chain(stack[..|stack| - 1], nodes[top].hi, end)
    }
  }

  lemma ChainStart(sh: Shape, n: nat)
    requires n < |sh.nodes|
    ensures sh.Chain([n], sh.nodes[n].lo, sh.nodes[n].hi)
  {
    assert [n][..0] == [];
  }

  lemma ChainEnds(sh: Shape, pos: nat, end: nat)
    requires sh.Chain([], pos, end)
    ensures pos == end
  {
  }

  lemma ChainPush(sh: Shape, stack: seq<nat>, n: nat, end: nat)
    requires n < |sh.nodes| && sh.Chain(stack, sh.nodes[n].hi, end)
    ensures sh.Chain(stack + [n], sh.nodes[n].lo, end)
  {
    assert (stack + [n])[..|stack + [n]| - 1] == stack;
  }

  /** Below a node, only the first word can end there. */
  lemma OnlyFirstEnds(sh: Shape, n: nat, k: nat)
    requires sh.Framed() && n < |sh.nodes| && sh.Covers(n)
    requires sh.nodes[n].lo <= k < sh.nodes[n].hi
    requires k > sh.nodes[n].lo || |sh.words[k]| != |sh.nodes[n].path|
    ensures |sh.nodes[n].path| < |sh.words[k]|
  {
    var p := sh.nodes[n].path;
    assert p <= sh.words[k];
    if |sh.words[k]| == |p| {
      var first := sh.words[sh.nodes[n].lo];
      assert sh.words[k] == p && p <= first && StrLess(first, p);
      assert first == p + first[|p|..] && p == p + [];
      CompareStrPrefix(p, first[|p|..], []);
    }
  }

  /** Words that share a path are sorted by their next character. */
  lemma NextLettersSorted(words: seq<Str>, p: Str, i: nat, j: nat)
    requires StrictlySorted(words) && i < j < |words|
    requires p <= words[i] && p <= words[j] && |p| < |words[i]| && |p| < |words[j]|
    ensures words[i][|p|] <= words[j][|p|]
  {
    var a, b := words[i], words[j];
    assert a == p + a[|p|..] && b == p + b[|p|..];
    assert StrLess(a, b);
    CompareStrPrefix(p, a[|p|..], b[|p|..]);
  }

  // Walking down

  /** The words with the node's path as a prefix are exactly those of its run. */
  ghost predicate Exact(sh: Shape, n: nat)
    requires n < |sh.nodes|
  {
    forall k | 0 <= k < |sh.words| :: sh.nodes[n].path <= sh.words[k] <==> sh.nodes[n].lo <= k < sh.nodes[n].hi
  }

  /** Every word strictly below a node is below exactly one child. */
  lemma ChildOf(sh: Shape, n: nat, k: nat) returns (i: nat)
    requires sh.Valid() && n < |sh.nodes|
    requires sh.BodyStart(n) <= k < sh.nodes[n].hi
    ensures sh.IsChild(n, i) && sh.nodes[i].lo <= k < sh.nodes[i].hi
  {
    var f, c := sh.firstChild[n], sh.childCount[n];
    assert sh.Done(n);
    i := f;
    while sh.nodes[i].hi <= k
      invariant f <= i < f + c && sh.nodes[i].lo <= k
      decreases f + c - i
    {
      i := i + 1;
    }
  }

  lemma WalkStep(sh: Shape, n: nat, c: char)
    requires sh.Valid() && n < |sh.nodes| && Exact(sh, n)
    ensures forall i | sh.IsChild(n, i) && sh.labels[i] == c :: Exact(sh, i)
    ensures (forall i | sh.IsChild(n, i) :: sh.labels[i] != c)
            ==> forall k | 0 <= k < |sh.words| :: !(sh.nodes[n].path + [c] <= sh.words[k])
  {
    assert sh.Done(n);
    var p := sh.nodes[n].path + [c];
    forall k | 0 <= k < |sh.words| && p <= sh.words[k]
      ensures exists i :: sh.IsChild(n, i) && sh.labels[i] == c
      ensures forall i | sh.IsChild(n, i) && sh.labels[i] == c ::
                sh.nodes[i].lo <= k < sh.nodes[i].hi
    {
      var j := WordBelow(sh, n, c, k);
    }
    forall i | sh.IsChild(n, i) && sh.labels[i] == c ensures Exact(sh, i) {
      assert sh.Covers(i);
      assert sh.nodes[i].path == p;
    }
  }

  lemma WordBelow(sh: Shape, n: nat, c: char, k: nat) returns (i: nat)
    requires sh.Valid() && n < |sh.nodes| && Exact(sh, n)
    requires k < |sh.words| && sh.nodes[n].path + [c] <= sh.words[k]
    ensures sh.IsChild(n, i) && sh.labels[i] == c
    ensures sh.nodes[i].lo <= k < sh.nodes[i].hi
    ensures forall j | sh.IsChild(n, j) && sh.labels[j] == c :: j == i
  {
    assert sh.Done(n);
    var p := sh.nodes[n].path;
    assert p <= p + [c] <= sh.words[k];
    assert sh.words[k][|p|] == c;
    i := ChildOf(sh, n, k);
    assert sh.Covers(i);
    assert sh.nodes[i].path == p + [sh.labels[i]] <= sh.words[k];
  }

  lemma RootIsExact(sh: Shape)
    requires sh.Framed()
    ensures Exact(sh, 0)
  {
  }

  /** A word ends at the node of its letters, and nothing else does. */
  lemma EndsAtNode(sh: Shape, n: nat)
    requires sh.Valid() && n < |sh.nodes| && Exact(sh, n)
    ensures sh.terminal[n].Some? <==> sh.nodes[n].path in sh.words
  {
    assert sh.Done(n) && sh.Covers(n);
    var Node(path, lo, hi) := sh.nodes[n];
    if sh.terminal[n].Some? {
      assert path <= sh.words[lo] && path == sh.words[lo];
    }
    if path in sh.words {
      var k :| 0 <= k < |sh.words| && sh.words[k] == path;
      assert lo <= k < hi;
      if k > lo || |sh.words[k]| != |path| {
        OnlyFirstEnds(sh, n, k);
      }
    }
  }

  // Stacks

  /** Pushing `first .. first + count` in reverse, so that `first` ends up on top. */
  function PushDown(stack: seq<nat>, first: nat, count: nat): seq<nat>
    decreases count
  {
    if count == 0 then stack else PushDown(stack + [first + count - 1], first, count - 1)
  }

  lemma PushDownNone(stack: seq<nat>, first: nat)
    ensures PushDown(stack, first, 0) == stack
  {
  }

  lemma PushDownStep(stack: seq<nat>, first: nat, count: nat)
    requires count > 0
    ensures PushDown(stack, first, count) == PushDown(stack + [first + count - 1], first, count - 1)
  {
  }

  lemma {:induction false} PushDownShape(stack: seq<nat>, first: nat, count: nat)
    ensures |PushDown(stack, first, count)| == |stack| + count
    ensures PushDown(stack, first, count)[..|stack|] == stack
    ensures forall i | |stack| <= i < |stack| + count ::
              PushDown(stack, first, count)[i] == first + count - 1 - (i - |stack|)
    decreases count
  {
    if count > 0 {
      var stack' := stack + [first + count - 1];
      PushDownShape(stack', first, count - 1);
      var all := PushDown(stack', first, count - 1);
      assert stack == all[..|stack'|][..|stack|] == all[..|stack|];
      assert all[|stack|] == all[..|stack'|][|stack|];
    }
  }

  lemma PushDownElements(stack: seq<nat>, first: nat, count: nat)
    requires Distinct(stack) && forall i | 0 <= i < |stack| :: stack[i] < first
    ensures
      var all := PushDown(stack, first, count);
      && Distinct(all)
      && (forall i | 0 <= i < |all| :: all[i] < first + count)
      && (forall x | x in stack || first <= x < first + count :: x in all)
  {
    var all := PushDown(stack, first, count);
    PushDownShape(stack, first, count);
    forall i | 0 <= i < |stack| ensures all[i] == stack[i] {
      assert all[i] == all[..|stack|][i];
    }
    forall x | first <= x < first + count ensures x in all {
      assert all[|stack| + first + count - 1 - x] == x;
    }
  }

  lemma {:induction false} PushDownChain(sh: Shape, stack: seq<nat>, n: nat, count: nat, end: nat)
    requires n < |sh.nodes| == |sh.labels| == |sh.firstChild| == |sh.childCount| == |sh.terminal|
    requires sh.ChildrenRight(n) && count <= sh.childCount[n]
    requires sh.Chain(stack, if count == sh.childCount[n] then sh.nodes[n].hi
                             else sh.nodes[sh.firstChild[n] + count].lo, end)
    ensures sh.Chain(PushDown(stack, sh.firstChild[n], count), sh.BodyStart(n), end)
    decreases count
  {
    if count > 0 {
      var top := sh.firstChild[n] + count - 1;
      ChainPush(sh, stack, top, end);
      PushDownChain(sh, stack + [top], n, count - 1, end);
    }
  }

  /** How many letters of the next word lie below the top of the stack. */
  ghost function Headroom(sh: Shape, stack: seq<nat>, pos: nat): nat {
    if stack != [] && pos < |sh.words| && stack[|stack| - 1] < |sh.nodes|
       && |sh.nodes[stack[|stack| - 1]].path| <= |sh.words[pos]|
    then |sh.words[pos]| - |sh.nodes[stack[|stack| - 1]].path|
    else 0
  }

  /** The measure of every traversal: words still to come, then headroom, then stack size. */
  ghost predicate Closer(sh: Shape, stack': seq<nat>, pos': nat, stack: seq<nat>, pos: nat) {
    || pos < pos' <= |sh.words|
    || (pos == pos' && Headroom(sh, stack', pos') < Headroom(sh, stack, pos))
    || (pos == pos' && Headroom(sh, stack', pos') == Headroom(sh, stack, pos) && |stack'| < |stack|)
  }

  /** Replacing a node by its children makes progress. */
  lemma ChildrenAreCloser(sh: Shape, stack: seq<nat>)
    requires stack != [] && stack[|stack| - 1] < |sh.nodes|
    requires sh.Framed() && sh.AllCover() && sh.Covers(stack[|stack| - 1]) && sh.Done(stack[|stack| - 1])
    ensures
      var n := stack[|stack| - 1];
      Closer(sh, PushDown(stack[..|stack| - 1], sh.firstChild[n], sh.childCount[n]), sh.BodyStart(n),
             stack, sh.nodes[n].lo)
  {
    var n, rest := stack[|stack| - 1], stack[..|stack| - 1];
    var f, c := sh.firstChild[n], sh.childCount[n];
    var Node(path, lo, hi) := sh.nodes[n];
    PushDownShape(rest, f, c);
    assert c > 0 ==> sh.Covers(f);
    if sh.terminal[n].None? && lo < hi {
      var stack' := PushDown(rest, f, c);
      assert stack'[|stack'| - 1] == f;
      assert sh.nodes[f].path <= sh.words[lo];
    }
  }

  // Building

  datatype Group = Group(letter: char, start: nat, end: nat)

  /** The groups are consecutive non-empty runs from `lo` to `hi`. */
  ghost predicate RunsSplit(lo: nat, hi: nat, groups: seq<Group>) {
    && (groups == [] ==> lo == hi)
    && (groups != [] ==> groups[0].start == lo && groups[|groups| - 1].end == hi)
    && (forall i, j | 0 <= i < j < |groups| && j == i + 1 :: groups[i].end == groups[j].start)
    && (forall i | 0 <= i < |groups| :: lo <= groups[i].start < groups[i].end <= hi)
  }

  ghost predicate LetterAt(words: seq<Str>, depth: nat, g: Group) {
    forall k | g.start <= k < g.end && k < |words| :: depth < |words[k]| && words[k][depth] == g.letter
  }

  /** The groups split the run `lo..hi` by the letter at `depth`. */
  ghost predicate GroupsSplit(words: seq<Str>, depth: nat, lo: nat, hi: nat, groups: seq<Group>)
    requires hi <= |words|
  {
    && RunsSplit(lo, hi, groups)
    && (forall i | 0 <= i < |groups| :: LetterAt(words, depth, groups[i]))
    && (forall i, j | 0 <= i < j < |groups| :: groups[i].letter < groups[j].letter)
  }

  /** One more run, with a larger letter. */
  lemma GroupsSplitAppend(words: seq<Str>, depth: nat, lo: nat, start: nat, end: nat, groups: seq<Group>, letter: char)
    requires lo <= start < end <= |words| && GroupsSplit(words, depth, lo, start, groups)
    requires forall k | start <= k < end :: depth < |words[k]| && words[k][depth] == letter
    requires groups != [] ==> groups[|groups| - 1].letter < letter
    ensures GroupsSplit(words, depth, lo, end, groups + [Group(letter, start, end)])
  {
    hide RunsSplit;
    var g := Group(letter, start, end);
    assert LetterAt(words, depth, g);
    hide LetterAt;
    RunsSplitAppend(lo, start, end, groups, letter);
    assert forall i | 0 <= i < |groups| :: groups[i].letter < letter;
  }

  lemma RunsSplitAppend(lo: nat, start: nat, end: nat, groups: seq<Group>, letter: char)
    requires lo <= start < end && RunsSplit(lo, start, groups)
    ensures RunsSplit(lo, end, groups + [Group(letter, start, end)])
  {
  }

  /** A trie under construction: the nodes on the stack are the ones still without children. */
  ghost predicate Growing(sh: Shape, open: seq<nat>) {
    && sh.Framed() && sh.AllCover()
    && Distinct(open)
    && (forall i | 0 <= i < |open| :: open[i] < |sh.nodes|)
    && (forall n | 0 <= n < |sh.nodes| :: n in open || sh.Done(n))
  }

  /** `sh'` is `sh` with the groups appended as the children of `node`. */
  ghost predicate Expanded(sh: Shape, sh': Shape, node: nat, groups: seq<Group>)
    requires sh.Framed() && node < |sh.nodes|
  {
    var n := |sh.nodes|;
    && sh'.words == sh.words
    && |sh'.labels| == |sh'.firstChild| == |sh'.childCount| == |sh'.terminal| == |sh'.nodes| == n + |groups|
    && sh'.labels[..n] == sh.labels && sh'.nodes[..n] == sh.nodes
    && (forall i | n <= i < n + |groups| ::
          sh'.labels[i] == groups[i - n].letter
          && sh'.nodes[i] == Node(sh.nodes[node].path + [groups[i - n].letter], groups[i - n].start, groups[i - n].end))
    && (forall m | 0 <= m < n && m != node ::
          sh'.firstChild[m] == sh.firstChild[m] && sh'.childCount[m] == sh.childCount[m]
          && sh'.terminal[m] == sh.terminal[m])
    && sh'.firstChild[node] == n && sh'.childCount[node] == |groups|
  }

  function AppendChild(sh: Shape, path: Str, g: Group): Shape {
    sh.(labels := sh.labels + [g.letter], firstChild := sh.firstChild + [0], childCount := sh.childCount + [0],
    terminal := sh.terminal + [None], nodes := sh.nodes + [Node(path + [g.letter], g.start, g.end)])
  }

  /** The first `i` children of the node are appended, and the node already points to them. */
  ghost predicate Appending(sh: Shape, sh': Shape, node: nat, groups: seq<Group>, i: nat)
    requires node < |sh.nodes| == |sh.labels| == |sh.firstChild| == |sh.childCount| == |sh.terminal| && i <= |groups|
  {
    var n := |sh.nodes|;
    && sh'.words == sh.words
    && |sh'.labels| == |sh'.firstChild| == |sh'.childCount| == |sh'.terminal| == |sh'.nodes| == n + i
    && sh'.labels[..n] == sh.labels && sh'.nodes[..n] == sh.nodes && sh'.terminal[..n] == sh.terminal
    && sh'.firstChild[..n] == sh.firstChild[node := n] && sh'.childCount[..n] == sh.childCount[node := |groups|]
    && (forall k | n <= k < n + i ::
          sh'.labels[k] == groups[k - n].letter
          && sh'.nodes[k] == Node(sh.nodes[node].path + [groups[k - n].letter], groups[k - n].start, groups[k - n].end))
  }

  lemma FramedLengths(sh: Shape)
    requires sh.Framed()
    ensures |sh.nodes| == |sh.labels| == |sh.firstChild| == |sh.childCount| == |sh.terminal|
  {
  }

  lemma NothingAppended(sh: Shape, sh': Shape, node: nat, groups: seq<Group>)
    requires node < |sh.nodes| == |sh.labels| == |sh.firstChild| == |sh.childCount| == |sh.terminal|
    requires sh' == sh.(firstChild := sh.firstChild[node := |sh.nodes|], childCount := sh.childCount[node := |groups|])
    ensures Appending(sh, sh', node, groups, 0)
  {
  }

  lemma AppendingStep(sh: Shape, sh': Shape, node: nat, groups: seq<Group>, i: nat)
    requires node < |sh.nodes| == |sh.labels| == |sh.firstChild| == |sh.childCount| == |sh.terminal| && i < |groups|
    requires Appending(sh, sh', node, groups, i)
    ensures Appending(sh, AppendChild(sh', sh.nodes[node].path, groups[i]), node, groups, i + 1)
  {
  }

  /** Appending the children one by one is one expansion. */
  lemma AppendedIsExpanded(sh: Shape, sh': Shape, node: nat, groups: seq<Group>)
    requires sh.Framed() && node < |sh.nodes| && Appending(sh, sh', node, groups, |groups|)
    ensures Expanded(sh, sh', node, groups)
    ensures sh'.terminal[..|sh.nodes|] == sh.terminal
  {
    hide StrictlySorted;
    var n := |sh.nodes|;
    forall m | 0 <= m < n
      ensures m != node ==> sh'.firstChild[m] == sh.firstChild[m] && sh'.childCount[m] == sh.childCount[m]
      ensures sh'.terminal[m] == sh.terminal[m]
    {
      assert sh'.firstChild[m] == sh'.firstChild[..n][m] && sh'.childCount[m] == sh'.childCount[..n][m];
      assert sh'.terminal[m] == sh'.terminal[..n][m];
    }
    assert sh'.firstChild[node] == sh'.firstChild[..n][node] && sh'.childCount[node] == sh'.childCount[..n][node];
  }

  lemma RootIsGrowing(sh: Shape)
    requires sh.Framed() && |sh.labels| == 1
    ensures Growing(sh, [0]) && sh.Chain([0], 0, |sh.words|)
  {
    assert sh.Covers(0);
    assert [0][..0] == [];
  }

  lemma RunIsGroupable(sh: Shape, n: nat, cursor: nat)
    requires sh.Framed() && n < |sh.nodes| && sh.Covers(n)
    requires
      var Node(path, lo, hi) := sh.nodes[n];
      cursor == if lo < hi && |sh.words[lo]| == |path| then lo + 1 else lo
    ensures
      var Node(path, _, hi) := sh.nodes[n];
      && (forall k | cursor <= k < hi :: |path| < |sh.words[k]|)
      && (forall i, j | cursor <= i < j < hi :: sh.words[i][|path|] <= sh.words[j][|path|])
  {
    var Node(path, _, hi) := sh.nodes[n];
    forall k | cursor <= k < hi ensures |path| < |sh.words[k]| {
      OnlyFirstEnds(sh, n, k);
    }
    forall i, j | cursor <= i < j < hi ensures sh.words[i][|path|] <= sh.words[j][|path|] {
      NextLettersSorted(sh.words, path, i, j);
    }
  }

  lemma ExpandedAfterTerminal(sh: Shape, mid: Shape, sh': Shape, node: nat, groups: seq<Group>)
    requires sh.Framed() && node < |sh.nodes| && sh.Covers(node)
    requires mid.Framed() && mid == sh.(terminal := mid.terminal)
    requires mid.terminal == sh.terminal[node := mid.terminal[node]]
    requires mid.TerminalRight(node)
    requires Expanded(mid, sh', node, groups) && sh'.terminal[..|mid.terminal|] == mid.terminal
    ensures Expanded(sh, sh', node, groups)
    ensures sh'.Covers(node) && sh'.TerminalRight(node)
    ensures sh'.BodyStart(node) == mid.BodyStart(node)
  {
    assert sh'.nodes[node] == sh'.nodes[..|sh.nodes|][node] == sh.nodes[node];
    assert sh'.terminal[node] == sh'.terminal[..|mid.terminal|][node];
  }

  lemma ExpandCovers(sh: Shape, sh': Shape, node: nat, groups: seq<Group>, lo: nat)
    requires sh.Framed() && sh.AllCover() && node < |sh.nodes|
    requires Expanded(sh, sh', node, groups)
    requires sh.nodes[node].lo <= lo && sh.Covers(node)
    requires GroupsSplit(sh.words, |sh.nodes[node].path|, lo, sh.nodes[node].hi, groups)
    ensures sh'.Framed() && sh'.AllCover()
  {
    var n, path := |sh.nodes|, sh.nodes[node].path;
    assert sh.Covers(node);
    assert sh'.nodes[0] == sh'.nodes[..n][0] == sh.nodes[0];
    forall m | 0 <= m < |sh'.nodes| ensures sh'.Covers(m) {
      if m < n {
        assert sh'.nodes[m] == sh'.nodes[..n][m] == sh.nodes[m];
        assert sh.Covers(m);
      } else {
        var i := m - n;
        assert sh'.nodes[m] == Node(path + [groups[i].letter], groups[i].start, groups[i].end);
        forall k | groups[i].start <= k < groups[i].end ensures path + [groups[i].letter] <= sh.words[k] {
          assert path <= sh.words[k] && sh.words[k][|path|] == groups[i].letter;
        }
      }
    }
  }

  lemma ExpandKeepsDone(sh: Shape, sh': Shape, node: nat, groups: seq<Group>, m: nat)
    requires sh.Framed() && node < |sh.nodes| && Expanded(sh, sh', node, groups)
    requires m < |sh.nodes| && m != node && sh.Covers(m) && sh'.Covers(m) && sh.Done(m)
    ensures sh'.Done(m)
  {
    var n := |sh.nodes|;
    forall i | 0 <= i < n ensures sh'.nodes[i] == sh.nodes[i] && sh'.labels[i] == sh.labels[i] {
      assert sh'.nodes[i] == sh'.nodes[..n][i] && sh'.labels[i] == sh'.labels[..n][i];
    }
  }

  lemma ExpandFinishes(sh: Shape, sh': Shape, node: nat, groups: seq<Group>)
    requires sh.Framed() && node < |sh.nodes| && Expanded(sh, sh', node, groups)
    requires sh'.Covers(node) && sh'.TerminalRight(node)
    requires sh'.nodes[node] == sh.nodes[node]
    requires GroupsSplit(sh.words, |sh.nodes[node].path|, sh'.BodyStart(node), sh.nodes[node].hi, groups)
    ensures sh'.Done(node)
  {
    var n := |sh.nodes|;
    forall i, j | n <= i < j < n + |groups| && j == i + 1 ensures sh'.nodes[i].hi == sh'.nodes[j].lo {
      assert groups[i - n].end == groups[j - n].start;
      assert sh'.nodes[j].lo == groups[j - n].start && sh'.nodes[i].hi == groups[i - n].end;
    }
  }

  lemma {:induction false} ExpandKeepsChain(sh: Shape, sh': Shape, stack: seq<nat>, pos: nat, end: nat)
    requires |sh.nodes| <= |sh'.nodes| && sh'.nodes[..|sh.nodes|] == sh.nodes && sh.Chain(stack, pos, end)
    ensures sh'.Chain(stack, pos, end)
  {
    if stack != [] {
      var top := stack[|stack| - 1];
      assert sh'.nodes[top] == sh'.nodes[..|sh.nodes|][top];
      ExpandKeepsChain(sh, sh', stack[..|stack| - 1], sh.nodes[top].hi, end);
    }
  }

  /** One turn of the work stack: the popped node is finished, its children are waiting. */
  lemma ExpandGrows(sh: Shape, sh': Shape, open: seq<nat>, groups: seq<Group>, end: nat)
    requires Growing(sh, open) && open != []
    requires
      var node := open[|open| - 1];
      && Expanded(sh, sh', node, groups)
      && sh'.Covers(node) && sh'.TerminalRight(node)
      && GroupsSplit(sh.words, |sh.nodes[node].path|, sh'.BodyStart(node), sh.nodes[node].hi, groups)
      && sh.Chain(open, sh.nodes[node].lo, end)
    ensures
      var node := open[|open| - 1];
      var open' := PushDown(open[..|open| - 1], |sh.nodes|, |groups|);
      Growing(sh', open') && sh'.Chain(open', sh'.BodyStart(node), end)
  {
    var node, rest := open[|open| - 1], open[..|open| - 1];
    var n := |sh.nodes|;
    assert sh'.nodes[node] == sh'.nodes[..n][node];
    ExpandCovers(sh, sh', node, groups, sh'.BodyStart(node));
    ExpandFinishes(sh, sh', node, groups);
    ExpandKeepsChain(sh, sh', rest, sh.nodes[node].hi, end);
    PushDownChain(sh', rest, node, |groups|, end);
    ExpandOpen(sh, sh', open, groups);
  }

  lemma ExpandOpen(sh: Shape, sh': Shape, open: seq<nat>, groups: seq<Group>)
    requires Growing(sh, open) && open != []
    requires Expanded(sh, sh', open[|open| - 1], groups)
    requires sh'.Framed() && sh'.AllCover() && sh'.Done(open[|open| - 1])
    ensures Growing(sh', PushDown(open[..|open| - 1], |sh.nodes|, |groups|))
  {
    hide Shape.Done;
    hide PushDown;
    var node, rest := open[|open| - 1], open[..|open| - 1];
    var n := |sh.nodes|;
    PushDownElements(rest, n, |groups|);
    assert open == rest + [node];
    forall m | 0 <= m < n && m !in rest ensures sh'.Done(m) {
      if m != node {
        assert sh.Covers(m) && sh'.Covers(m);
        ExpandKeepsDone(sh, sh', node, groups, m);
      }
    }
  }

  lemma NodeIsCloser(sh: Shape, sh': Shape, open: seq<nat>, groups: seq<Group>)
    requires Growing(sh, open) && open != []
    requires Expanded(sh, sh', open[|open| - 1], groups)
    requires Growing(sh', PushDown(open[..|open| - 1], |sh.nodes|, |groups|))
    ensures forall pos :: Headroom(sh', open, pos) == Headroom(sh, open, pos)
    ensures
      var n := open[|open| - 1];
      Closer(sh', PushDown(open[..|open| - 1], |sh.nodes|, |groups|), sh'.BodyStart(n), open, sh.nodes[n].lo)
  {
    var n, rest := open[|open| - 1], open[..|open| - 1];
    assert sh'.nodes[n] == sh'.nodes[..|sh.nodes|][n] == sh.nodes[n];
    PushDownShape(rest, |sh.nodes|, |groups|);
    var open' := PushDown(rest, |sh.nodes|, |groups|);
    forall i | 0 <= i < |rest| ensures open'[i] == open[i] != n {
      assert open'[i] == open'[..|rest|][i];
    }
    assert n !in open';
    assert sh'.Covers(n);
    ChildrenAreCloser(sh', open);
  }
}
