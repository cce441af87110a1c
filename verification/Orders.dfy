/** Comparison and sorting as the Rust standard library promises them: three-way comparisons
    chained with `Then`, lexicographic order of strings, and a stable sort. */
module Orders {

  /** A word: a sequence of code points. */
  type Str = seq<char>

  datatype Ordering = Less | Equal | Greater {
    function Flip(): Ordering {
      match this
      case Less => Greater
      case Equal => Equal
      case Greater => Less
    }

    function Then(next: Ordering): Ordering {
      if Equal? then next else this
    }
  }

  function CompareNat(a: nat, b: nat): Ordering {
    if a < b then Less else if a == b then Equal else Greater
  }

  /** Lexicographic order on code points (Rust's byte order on UTF-8 text is the same order). */
  function CompareStr(a: Str, b: Str): Ordering {
    if a == [] then (if b == [] then Equal else Less)
    else if b == [] then Greater
    else if a[0] < b[0] then Less
    else if b[0] < a[0] then Greater
    else CompareStr(a[1..], b[1..])
  }

  predicate StrLess(a: Str, b: Str) {
    CompareStr(a, b).Less?
  }

  predicate StrLeq(a: Str, b: Str) {
    !CompareStr(a, b).Greater?
  }

  lemma {:induction false} CompareStrFlips(a: Str, b: Str)
    ensures CompareStr(b, a) == CompareStr(a, b).Flip()
    ensures CompareStr(a, b).Equal? <==> a == b
  {
    if a != [] && b != [] && a[0] == b[0] {
      CompareStrFlips(a[1..], b[1..]);
      assert a == [a[0]] + a[1..] && b == [b[0]] + b[1..];
    }
  }

  lemma {:induction false} CompareStrTransitive(a: Str, b: Str, c: Str)
    requires StrLeq(a, b) && StrLeq(b, c)
    ensures StrLeq(a, c)
    ensures StrLess(a, b) || StrLess(b, c) ==> StrLess(a, c)
  {
    if a != [] && b != [] && c != [] && a[0] == b[0] == c[0] {
      CompareStrTransitive(a[1..], b[1..], c[1..]);
    }
  }

  /** A common prefix does not matter. */
  lemma {:induction false} CompareStrPrefix(p: Str, a: Str, b: Str)
    ensures CompareStr(p + a, p + b) == CompareStr(a, b)
  {
    if p == [] {
      assert p + a == a && p + b == b;
    } else {
      assert (p + a)[1..] == p[1..] + a && (p + b)[1..] == p[1..] + b;
      CompareStrPrefix(p[1..], a, b);
    }
  }

  ghost predicate StrictlySorted(words: seq<Str>) {
    forall i, j | 0 <= i < j < |words| :: StrLess(words[i], words[j])
  }

  function Init<T>(s: seq<T>): seq<T>
    requires s != []
  {
    s[..|s| - 1]
  }

  function Last<T>(s: seq<T>): T
    requires s != []
  {
    s[|s| - 1]
  }

  /** A sequence without repetitions: the set of its elements determines its length, too. */
  ghost predicate Distinct<T>(s: seq<T>) {
    forall i, j | 0 <= i < j < |s| :: s[i] != s[j]
  }

  // Sorting

  ghost predicate TotalPreorder<T(!new)>(leq: (T, T) -> bool) {
    && (forall x, y :: leq(x, y) || leq(y, x))
    && (forall x, y, z | leq(x, y) && leq(y, z) :: leq(x, z))
  }

  ghost predicate Sorted<T>(leq: (T, T) -> bool, s: seq<T>) {
    forall i, j | 0 <= i <= j < |s| :: leq(s[i], s[j])
  }

  /** No two different elements of `s` tie. */
  ghost predicate NoTies<T>(leq: (T, T) -> bool, s: seq<T>) {
    forall x, y | x in s && y in s && leq(x, y) && leq(y, x) :: x == y
  }

  function InsertBy<T>(leq: (T, T) -> bool, x: T, s: seq<T>): seq<T> {
    if s == [] || leq(x, s[0]) then [x] + s else [s[0]] + InsertBy(leq, x, s[1..])
  }

  /** The stable sort of the standard library, specified by its simplest definition. */
  function SortBy<T>(leq: (T, T) -> bool, s: seq<T>): seq<T> {
    if s == [] then [] else InsertBy(leq, s[0], SortBy(leq, s[1..]))
  }

  lemma {:induction false} InsertBySorts<T(!new)>(leq: (T, T) -> bool, x: T, s: seq<T>)
    requires TotalPreorder(leq) && Sorted(leq, s)
    ensures multiset(InsertBy(leq, x, s)) == multiset{x} + multiset(s)
    ensures Sorted(leq, InsertBy(leq, x, s))
  {
    if s == [] || leq(x, s[0]) {
    } else {
      var r := InsertBy(leq, x, s[1..]);
      InsertBySorts(leq, x, s[1..]);
      assert s == [s[0]] + s[1..];
      forall j | 0 <= j < |r| ensures leq(s[0], r[j]) {
        assert r[j] in multiset(r);
        assert r[j] == x || r[j] in s[1..];
      }
    }
  }

  lemma {:induction false} SortBySorts<T(!new)>(leq: (T, T) -> bool, s: seq<T>)
    requires TotalPreorder(leq)
    ensures Sorted(leq, SortBy(leq, s))
    ensures multiset(SortBy(leq, s)) == multiset(s)
    ensures |SortBy(leq, s)| == |s|
    ensures forall x :: x in SortBy(leq, s) <==> x in s
  {
    if s == [] {
    } else {
      SortBySorts(leq, s[1..]);
      InsertBySorts(leq, s[0], SortBy(leq, s[1..]));
      assert s == [s[0]] + s[1..];
    }
    SameElements(SortBy(leq, s), s);
  }

  lemma SameElements<T>(s: seq<T>, t: seq<T>)
    requires multiset(s) == multiset(t)
    ensures |s| == |t|
    ensures forall x :: x in s <==> x in t
  {
    assert |s| == |multiset(s)| && |t| == |multiset(t)|;
    forall x ensures x in s <==> x in t {
      assert x in s <==> x in multiset(s);
      assert x in t <==> x in multiset(t);
    }
  }

  lemma SmallestFirst<T(!new)>(leq: (T, T) -> bool, s: seq<T>, t: seq<T>)
    requires Sorted(leq, s) && |s| > 0 && |t| > 0
    requires forall x :: x in s <==> x in t
    ensures t[0] in s && leq(s[0], t[0])
  {
    assert t[0] in t;
    var i :| 0 <= i < |s| && s[i] == t[0];
  }

  lemma Tail<T>(leq: (T, T) -> bool, s: seq<T>)
    requires Sorted(leq, s) && |s| > 0
    ensures Sorted(leq, s[1..])
    ensures multiset(s[1..]) == multiset(s) - multiset{s[0]}
    ensures forall x | x in s[1..] :: x in s
  {
    assert s == [s[0]] + s[1..];
  }

  /** Without ties, the sorted arrangement of a collection is unique: sorting forgets the order
      in which the collection was enumerated. */
  lemma {:induction false} SortedUnique<T(!new)>(leq: (T, T) -> bool, s: seq<T>, t: seq<T>)
    requires Sorted(leq, s) && Sorted(leq, t)
    requires multiset(s) == multiset(t) && NoTies(leq, s)
    ensures s == t
  {
    SameElements(s, t);
    if s != [] {
      SmallestFirst(leq, s, t);
      SmallestFirst(leq, t, s);
      Tail(leq, s);
      Tail(leq, t);
      SortedUnique(leq, s[1..], t[1..]);
      assert s == [s[0]] + s[1..] && t == [t[0]] + t[1..];
    }
  }

  /** A sorted sequence is left alone, and so are its prefixes: used for truncation. */
  lemma SortByUnique<T(!new)>(leq: (T, T) -> bool, s: seq<T>, t: seq<T>)
    requires TotalPreorder(leq) && multiset(s) == multiset(t) && NoTies(leq, s)
    ensures SortBy(leq, s) == SortBy(leq, t)
  {
    SortBySorts(leq, s);
    SortBySorts(leq, t);
    SortedUnique(leq, SortBy(leq, s), SortBy(leq, t));
  }

  lemma {:induction false} DistinctMultiset<T>(s: seq<T>)
    requires Distinct(s)
    ensures forall x :: multiset(s)[x] <= 1
  {
    if s != [] {
      var n := |s| - 1;
      assert s == s[..n] + [s[n]];
      DistinctMultiset(s[..n]);
      assert s[n] !in s[..n];
      assert s[n] !in multiset(s[..n]);
    }
  }

  lemma RepeatedMultiset<T>(s: seq<T>, i: nat, j: nat)
    requires i < j < |s| && s[i] == s[j]
    ensures multiset(s)[s[i]] >= 2
  {
    assert s == s[..i + 1] + s[i + 1..];
    assert s[i] in s[..i + 1] && s[i + 1..][j - i - 1] == s[i];
    assert s[i] in multiset(s[..i + 1]) && s[i] in multiset(s[i + 1..]);
  }

  lemma DistinctPermutation<T>(s: seq<T>, t: seq<T>)
    requires Distinct(s) && multiset(s) == multiset(t)
    ensures Distinct(t)
  {
    DistinctMultiset(s);
    forall i, j | 0 <= i < j < |t| ensures t[i] != t[j] {
      if t[i] == t[j] {
        RepeatedMultiset(t, i, j);
      }
    }
  }

  lemma {:induction false} DistinctCount<K>(keys: seq<K>)
    requires Distinct(keys)
    ensures |set k | k in keys| == |keys|
  {
    if keys != [] {
      var n := |keys| - 1;
      DistinctCount(keys[..n]);
      assert keys == keys[..n] + [keys[n]];
      assert (set k | k in keys) == (set k | k in keys[..n]) + {keys[n]};
    }
  }

  /** The first `n` numbers. */
  function NumbersBelow(n: nat): set<nat> {
    if n == 0 then {} else NumbersBelow(n - 1) + {n - 1}
  }

  lemma {:induction false} NumbersBelowCount(n: nat)
    ensures |NumbersBelow(n)| == n && forall x: nat :: x in NumbersBelow(n) <==> x < n
  {
    if n > 0 {
      NumbersBelowCount(n - 1);
    }
  }

  lemma {:induction false} SubsetCount<T>(a: set<T>, b: set<T>)
    requires a <= b
    ensures |a| <= |b|
  {
    if a != {} {
      var x :| x in a;
      SubsetCount(a - {x}, b - {x});
    }
  }

  /** Pigeonhole: distinct numbers below `n` are at most `n` many. */
  lemma Pigeonhole(s: seq<nat>, n: nat)
    requires Distinct(s) && forall i | 0 <= i < |s| :: s[i] < n
    ensures |s| <= n
  {
    DistinctCount(s);
    NumbersBelowCount(n);
    SubsetCount((set x | x in s), NumbersBelow(n));
  }

  lemma StrLeqIsTotalOrder()
    ensures TotalPreorder(StrLeq)
    ensures forall a, b | StrLeq(a, b) && StrLeq(b, a) :: a == b
  {
    forall a, b ensures (StrLeq(a, b) || StrLeq(b, a)) && (StrLeq(a, b) && StrLeq(b, a) ==> a == b) {
      CompareStrFlips(a, b);
    }
    forall a, b, c | StrLeq(a, b) && StrLeq(b, c) ensures StrLeq(a, c) {
      CompareStrTransitive(a, b, c);
    }
  }

  // Removing consecutive repetitions

  function Dedup<T(==)>(s: seq<T>): seq<T> {
    var n := |s|;
    if n <= 1 then s
    else if s[n - 1] == s[n - 2] then Dedup(s[..n - 1])
    else Dedup(s[..n - 1]) + [s[n - 1]]
  }

  lemma {:induction false} DedupKeepsElements<T>(s: seq<T>)
    ensures forall x :: x in Dedup(s) <==> x in s
    ensures s != [] ==> Dedup(s) != [] && Dedup(s)[|Dedup(s)| - 1] == s[|s| - 1]
  {
    var n := |s|;
    if n > 1 {
      DedupKeepsElements(s[..n - 1]);
      assert s == s[..n - 1] + [s[n - 1]];
    }
  }

  /** Deduplicating a sorted sequence removes every repetition. */
  lemma {:induction false} DedupSorted<T(!new)>(leq: (T, T) -> bool, s: seq<T>)
    requires Sorted(leq, s)
    requires forall x, y | x in s && y in s && leq(x, y) && leq(y, x) :: x == y
    ensures Sorted(leq, Dedup(s)) && Distinct(Dedup(s))
  {
    var n := |s|;
    if n > 1 {
      var rest := s[..n - 1];
      assert forall x | x in rest :: x in s;
      DedupSorted(leq, rest);
      DedupKeepsElements(rest);
      if s[n - 1] != s[n - 2] {
        var d := Dedup(rest);
        forall i | 0 <= i < |d| ensures leq(d[i], s[n - 1]) && d[i] != s[n - 1] {
          LastIsGreatest(leq, s, d[i]);
        }
      }
    }
  }

  lemma LastIsGreatest<T(!new)>(leq: (T, T) -> bool, s: seq<T>, x: T)
    requires Sorted(leq, s) && |s| > 1 && x in s[..|s| - 1]
    requires forall x, y | x in s && y in s && leq(x, y) && leq(y, x) :: x == y
    requires s[|s| - 1] != s[|s| - 2]
    ensures leq(x, s[|s| - 1]) && x != s[|s| - 1]
  {
    var n := |s|;
    var i :| 0 <= i < n - 1 && s[..n - 1][i] == x;
    assert leq(s[i], s[n - 2]) && leq(s[n - 2], s[n - 1]) && leq(s[i], s[n - 1]);
    assert s[n - 2] in s && s[n - 1] in s;
  }

  /** Without repetitions, a sorted sequence is determined by its elements. */
  lemma {:induction false} SortedByElements<T(!new)>(leq: (T, T) -> bool, s: seq<T>, t: seq<T>)
    requires Sorted(leq, s) && Sorted(leq, t) && Distinct(s) && Distinct(t)
    requires forall x :: x in s <==> x in t
    requires NoTies(leq, s)
    ensures s == t
  {
    DistinctMultiset(s);
    DistinctMultiset(t);
    forall x ensures multiset(s)[x] == multiset(t)[x] {
      assert x in multiset(s) <==> x in s;
      assert x in multiset(t) <==> x in t;
    }
    assert multiset(s) == multiset(t);
    SortedUnique(leq, s, t);
  }

  // The standard library's partition point, by binary search

  function PartitionBetween<T>(s: seq<T>, before: T -> bool, lo: nat, hi: nat): (r: nat)
    requires lo <= hi <= |s|
    ensures lo <= r <= hi
    decreases hi - lo
  {
    if lo == hi then lo
    else
      var mid := (lo + hi) / 2;
      if before(s[mid]) then PartitionBetween(s, before, mid + 1, hi) else PartitionBetween(s, before, lo, mid)
  }

  function PartitionPoint<T>(s: seq<T>, before: T -> bool): nat {
    PartitionBetween(s, before, 0, |s|)
  }

  lemma {:induction false} PartitionBetweenSplits<T>(s: seq<T>, before: T -> bool, lo: nat, hi: nat)
    requires lo <= hi <= |s|
    requires forall i, j | 0 <= i <= j < |s| && before(s[j]) :: before(s[i])
    requires forall i | 0 <= i < lo :: before(s[i])
    requires forall i | hi <= i < |s| :: !before(s[i])
    ensures
      var r := PartitionBetween(s, before, lo, hi);
      (forall i | 0 <= i < r :: before(s[i])) && (forall i | r <= i < |s| :: !before(s[i]))
    decreases hi - lo
  {
    if lo < hi {
      var mid := (lo + hi) / 2;
      if before(s[mid]) {
        PartitionBetweenSplits(s, before, mid + 1, hi);
      } else {
        PartitionBetweenSplits(s, before, lo, mid);
      }
    }
  }

  /** A set's elements, in no particular order. */
  method Enumerate<K(==)>(all: set<K>) returns (keys: seq<K>)
    ensures Distinct(keys) && forall k :: k in keys <==> k in all
  {
    keys := [];
    var rest := all;
    while rest != {}
      invariant rest <= all
      invariant forall k :: k in keys <==> k in all - rest
      invariant Distinct(keys)
      decreases rest
    {
      var k :| k in rest;
      assert k !in keys;
      AppendMembers(keys, k);
      rest := rest - {k};
      keys := keys + [k];
    }
  }

  lemma AppendMembers<K>(keys: seq<K>, k: K)
    ensures forall x :: x in keys + [k] <==> x in keys || x == k
    ensures Distinct(keys) && k !in keys ==> Distinct(keys + [k])
  {
    assert (keys + [k])[|keys|] == k;
  }
}
