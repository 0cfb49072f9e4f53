/**
  The order of the entries of one directory (the comparators at lines 34-38
  and 75-79): directories before files, entries of the same kind by name.
  `localeCompare` is taken to be plain lexicographic order on characters.
*/
module Ordering {
  import opened FileTree

  /** Three-way lexicographic comparison of two names: -1, 0 or 1. */
  function CompareNames(a: string, b: string): (r: int)
    ensures -1 <= r <= 1
    ensures r == 0 <==> a == b
  {
    if a == [] && b == [] then 0
    else if a == [] then -1
    else if b == [] then 1
    else if a[0] < b[0] then -1
    else if a[0] > b[0] then 1
    else
      var r := CompareNames(a[1..], b[1..]);
      assert a == [a[0]] + a[1..] && b == [b[0]] + b[1..];
      r
  }

  lemma {:induction false} CompareNamesFlip(a: string, b: string)
    ensures CompareNames(a, b) == -CompareNames(b, a)
    decreases |a|
  {
    if a != [] && b != [] && a[0] == b[0] {
      CompareNamesFlip(a[1..], b[1..]);
    }
  }

  lemma {:induction false} CompareNamesTransitive(a: string, b: string, c: string)
    requires CompareNames(a, b) <= 0 && CompareNames(b, c) <= 0
    ensures CompareNames(a, c) <= 0
    decreases |a|
  {
    if a != [] && b != [] && c != [] && a[0] == b[0] == c[0] {
      CompareNamesTransitive(a[1..], b[1..], c[1..]);
    }
  }

  /** The comparator: negative when `a` goes first, positive when `b` does, 0 for the same kind and name. */
  function CompareEntries(a: Node, b: Node): int
  {
    if a.Dir? && !b.Dir? then -1
    else if !a.Dir? && b.Dir? then 1
    else CompareNames(a.name, b.name)
  }

  /** `a` may come before `b`. */
  predicate EntryLe(a: Node, b: Node)
  {
    CompareEntries(a, b) <= 0
  }

  /** The comparator is a total preorder: reflexive, total and transitive. */
  lemma EntryLeTotalPreorder(a: Node, b: Node, c: Node)
    ensures EntryLe(a, a)
    ensures EntryLe(a, b) || EntryLe(b, a)
    ensures EntryLe(a, b) && EntryLe(b, c) ==> EntryLe(a, c)
  {
    CompareNamesFlip(a.name, b.name);
    if EntryLe(a, b) && EntryLe(b, c) && a.Dir? == b.Dir? == c.Dir? {
      CompareNamesTransitive(a.name, b.name, c.name);
    }
  }

  /** The comparator is antisymmetric in sign, and two entries tie exactly when they have the same kind and name. */
  lemma CompareEntriesAntisymmetric(a: Node, b: Node)
    ensures CompareEntries(a, b) == -CompareEntries(b, a)
    ensures CompareEntries(a, b) == 0 <==> a.Dir? == b.Dir? && a.name == b.name
  {
    CompareNamesFlip(a.name, b.name);
  }

  /** Sorted by the comparator: no later entry has to come before an earlier one. */
  ghost predicate Sorted(s: seq<Node>)
  {
    forall i, j :: 0 <= i < j < |s| ==> EntryLe(s[i], s[j])
  }

  /** In a sorted listing no file precedes a directory, and entries of one kind are in name order. */
  lemma SortedMeansDirectoriesFirst(s: seq<Node>)
    ensures Sorted(s) <==>
              forall i, j :: 0 <= i < j < |s| ==>
                && !(s[i].File? && s[j].Dir?)
                && (s[i].Dir? == s[j].Dir? ==> CompareNames(s[i].name, s[j].name) <= 0)
  {
  }

  /** Inserts `x` before the first entry that must come after it. */
  function Insert(x: Node, s: seq<Node>): (r: seq<Node>)
    ensures multiset(r) == multiset(s) + multiset{x}
  {
    if s == [] then [x]
    else if EntryLe(x, s[0]) then [x] + s
    else
      assert s == [s[0]] + s[1..];
      [s[0]] + Insert(x, s[1..])
  }

  /** Putting `b` in front of a sorted listing keeps it sorted when `b` may precede all of it. */
  lemma SortedCons(b: Node, s: seq<Node>)
    requires Sorted(s)
    requires forall y :: y in multiset(s) ==> EntryLe(b, y)
    ensures Sorted([b] + s)
  {
    var r := [b] + s;
    forall i, j | 0 <= i < j < |r| ensures EntryLe(r[i], r[j]) {
      if i == 0 {
        assert r[j] == s[j - 1];
        assert r[j] in multiset(s);
      } else {
        assert r[i] == s[i - 1] && r[j] == s[j - 1];
      }
    }
  }

  lemma {:induction false} InsertSorted(x: Node, s: seq<Node>)
    requires Sorted(s)
    ensures Sorted(Insert(x, s))
    decreases |s|
  {
    if s != [] {
      if EntryLe(x, s[0]) {
        InsertFront(x, s);
      } else {
        SortedTail(s);
        InsertSorted(x, s[1..]);
        InsertBehind(x, s);
      }
    }
  }

  /** An entry that may precede the head of a sorted listing may precede all of it. */
  lemma InsertFront(x: Node, s: seq<Node>)
    requires Sorted(s) && s != [] && EntryLe(x, s[0])
    ensures Sorted([x] + s)
  {
    forall y | y in multiset(s) ensures EntryLe(x, y) {
      var j :| 0 <= j < |s| && s[j] == y;
      EntryLeTotalPreorder(x, s[0], s[j]);
    }
    SortedCons(x, s);
  }

  /** An entry that must follow the head of a sorted listing goes into its tail. */
  lemma InsertBehind(x: Node, s: seq<Node>)
    requires Sorted(s) && s != [] && !EntryLe(x, s[0])
    requires Sorted(Insert(x, s[1..]))
    ensures Sorted(Insert(x, s))
  {
    EntryLeTotalPreorder(x, s[0], s[0]);
    forall y | y in multiset(Insert(x, s[1..])) ensures EntryLe(s[0], y) {
      assert y in multiset(s[1..]) + multiset{x};
      if y != x {
        var j :| 0 <= j < |s[1..]| && s[1..][j] == y;
        assert s[j + 1] == y;
      }
    }
    SortedCons(s[0], Insert(x, s[1..]));
  }

  /** The sorted listing, by insertion sort (the order `Array.prototype.sort` must produce). */
  function SortEntries(s: seq<Node>): (r: seq<Node>)
    ensures multiset(r) == multiset(s)
    ensures |r| == |s|
  {
    if s == [] then []
    else
      assert s == [s[0]] + s[1..];
      Insert(s[0], SortEntries(s[1..]))
  }

  /** Sorting yields a sorted permutation. */
  lemma {:induction false} SortEntriesSorted(s: seq<Node>)
    ensures Sorted(SortEntries(s))
    ensures multiset(SortEntries(s)) == multiset(s)
  {
    if s != [] {
      SortEntriesSorted(s[1..]);
      InsertSorted(s[0], SortEntries(s[1..]));
    }
  }

  /** Within `s`, entries that tie under the comparator are equal. */
  ghost predicate NamesIdentify(s: seq<Node>)
  {
    forall x, y :: x in s && y in s && x.name == y.name ==> x == y
  }

  /**
    When ties cannot happen between different entries (names are unique in a
    directory), there is only one sorted order: any sorted permutation of the
    listing is the one `SortEntries` computes.
  */
  lemma {:induction false} SortedPermutationUnique(s: seq<Node>, t: seq<Node>)
    requires Sorted(s) && Sorted(t)
    requires multiset(s) == multiset(t)
    requires NamesIdentify(s)
    ensures s == t
    decreases |s|
  {
    if s != [] {
      assert |t| == |multiset(t)| == |s|;
      SortedHeadsTie(s, t);
      MultisetTail(s);
      MultisetTail(t);
      NamesIdentifyTail(s);
      SortedTail(s);
      SortedTail(t);
      SortedPermutationUnique(s[1..], t[1..]);
      assert s == [s[0]] + s[1..] && t == [t[0]] + t[1..];
    }
  }

  lemma MultisetTail(s: seq<Node>)
    requires s != []
    ensures multiset(s[1..]) == multiset(s) - multiset{s[0]}
  {
    assert s == [s[0]] + s[1..];
  }

  lemma NamesIdentifyTail(s: seq<Node>)
    requires s != [] && NamesIdentify(s)
    ensures NamesIdentify(s[1..])
  {
    forall x | x in s[1..] ensures x in s { }
  }

  lemma SortedTail(s: seq<Node>)
    requires s != [] && Sorted(s)
    ensures Sorted(s[1..])
  {
    forall i, j | 0 <= i < j < |s| - 1 ensures EntryLe(s[1..][i], s[1..][j]) {
      assert s[1..][i] == s[i + 1] && s[1..][j] == s[j + 1];
    }
  }

  /** Two sorted permutations of one listing begin with entries that tie, so with the same entry. */
  lemma SortedHeadsTie(s: seq<Node>, t: seq<Node>)
    requires Sorted(s) && Sorted(t)
    requires multiset(s) == multiset(t)
    requires NamesIdentify(s)
    requires s != [] && t != []
    ensures s[0] == t[0]
  {
    assert t[0] in multiset(s) && s[0] in multiset(t);
    var i :| 0 <= i < |s| && s[i] == t[0];
    var j :| 0 <= j < |t| && t[j] == s[0];
    EntryLeTotalPreorder(s[0], s[0], s[0]);
    EntryLeTotalPreorder(t[0], t[0], t[0]);
    assert EntryLe(s[0], t[0]) && EntryLe(t[0], s[0]);
    CompareEntriesAntisymmetric(s[0], t[0]);
    assert t[0] in s;
  }

  method Swap(a: array<Node>, i: int, j: int)
    requires 0 <= i < a.Length && 0 <= j < a.Length
    modifies a
    ensures a[..] == old(a[..])[i := old(a[j])][j := old(a[i])]
    ensures multiset(a[..]) == multiset(old(a[..]))
  {
    a[i], a[j] := a[j], a[i];
  }

  /**
    `Array.prototype.sort` with the comparator, in place. The engine's own
    algorithm is not part of the program; what it promises for a consistent
    comparator is that the array ends up sorted and is a permutation of what
    it held. This is an insertion sort that keeps that promise.
  */
  method SortInPlace(a: array<Node>)
    modifies a
    ensures Sorted(a[..])
    ensures multiset(a[..]) == multiset(old(a[..]))
  {
    var i := 0;
    while i < a.Length
      invariant 0 <= i <= a.Length
      invariant Sorted(a[..i])
      invariant multiset(a[..]) == multiset(old(a[..]))
    {
      SinkInto(a, i);
      i := i + 1;
    }
  }

  /** One pass of the insertion sort: `a[i]` moves left past every entry that must come after it. */
  method SinkInto(a: array<Node>, i: int)
    requires 0 <= i < a.Length && Sorted(a[..i])
    modifies a
    ensures Sorted(a[..i + 1])
    ensures multiset(a[..i + 1]) == multiset(old(a[..i + 1]))
    ensures a[i + 1..] == old(a[i + 1..])
    ensures multiset(a[..]) == multiset(old(a[..]))
  {
    var j := i;
    ghost var start := a[..];
    ghost var s := start;
    SinkStart(s, i);
    while j > 0 && CompareEntries(a[j - 1], a[j]) > 0
      invariant a[..] == s
      invariant Sinking(s, start, i, j)
    {
      Swap(a, j - 1, j);
      SinkAdvance(s, start, i, j);
      s := s[j - 1 := s[j]][j := s[j - 1]];
      j := j - 1;
    }
    SinkFinish(s, start, i, j);
  }

  /** A pass at position `j` that began from `start`: the state below, the same entries, and nothing after `i` moved. */
  ghost predicate Sinking(s: seq<Node>, start: seq<Node>, i: int, j: int)
  {
    && SinkState(s, i, j)
    && |s| == |start|
    && multiset(s) == multiset(start)
    && s[i + 1..] == start[i + 1..]
  }

  /** One swap of the pass keeps it a pass from `start`. */
  lemma SinkAdvance(s: seq<Node>, start: seq<Node>, i: int, j: int)
    requires Sinking(s, start, i, j) && j > 0 && !EntryLe(s[j - 1], s[j])
    ensures Sinking(s[j - 1 := s[j]][j := s[j - 1]], start, i, j - 1)
  {
    SinkStep(s, i, j);
  }

  /** Where the pass stops, the prefix up to `i` is a sorted permutation of the one it began with. */
  lemma SinkFinish(s: seq<Node>, start: seq<Node>, i: int, j: int)
    requires Sinking(s, start, i, j)
    requires j == 0 || EntryLe(s[j - 1], s[j])
    ensures Sorted(s[..i + 1])
    ensures multiset(s[..i + 1]) == multiset(start[..i + 1])
  {
    SinkDone(s, i, j);
    PrefixMultiset(s, start, i + 1);
  }

  /**
    The state of a pass that has carried the moving entry down to position `j`:
    the entries before `j` and those from `j` to `i` are each in order, every
    entry before `j` may precede every entry after it, and the moving entry
    may precede all that follow it.
  */
  ghost predicate SinkState(s: seq<Node>, i: int, j: int)
  {
    && 0 <= j <= i < |s|
    && (forall k, l :: 0 <= k < l < j ==> EntryLe(s[k], s[l]))
    && (forall k, l :: j < k < l <= i ==> EntryLe(s[k], s[l]))
    && (forall k, l :: 0 <= k < j < l <= i ==> EntryLe(s[k], s[l]))
    && (forall l :: j < l <= i ==> EntryLe(s[j], s[l]))
  }

  lemma SinkStart(s: seq<Node>, i: int)
    requires 0 <= i < |s| && Sorted(s[..i])
    ensures SinkState(s, i, i)
  {
    forall k, l | 0 <= k < l < i ensures EntryLe(s[k], s[l]) {
      assert s[..i][k] == s[k] && s[..i][l] == s[l];
    }
  }

  /** Swapping the moving entry with a predecessor that must come after it keeps the state, one place further down. */
  lemma SinkStep(s: seq<Node>, i: int, j: int)
    requires SinkState(s, i, j) && j > 0 && !EntryLe(s[j - 1], s[j])
    ensures SinkState(s[j - 1 := s[j]][j := s[j - 1]], i, j - 1)
    ensures s[j - 1 := s[j]][j := s[j - 1]][i + 1..] == s[i + 1..]
    ensures multiset(s[j - 1 := s[j]][j := s[j - 1]]) == multiset(s)
  {
    EntryLeTotalPreorder(s[j], s[j - 1], s[j - 1]);
  }

  /** A pass that stops at the front or behind a predecessor that may precede it leaves the prefix up to `i` sorted. */
  lemma SinkDone(s: seq<Node>, i: int, j: int)
    requires SinkState(s, i, j)
    requires j == 0 || EntryLe(s[j - 1], s[j])
    ensures Sorted(s[..i + 1])
  {
    forall k | 0 <= k < j ensures EntryLe(s[k], s[j]) {
      EntryLeTotalPreorder(s[k], s[j - 1], s[j]);
    }
    var t := s[..i + 1];
    forall k, l | 0 <= k < l < |t| ensures EntryLe(t[k], t[l]) {
      assert t[k] == s[k] && t[l] == s[l];
    }
  }

  /** Two permutations that agree from position `m` on are permutations up to `m`. */
  lemma PrefixMultiset(s: seq<Node>, t: seq<Node>, m: nat)
    requires m <= |s| == |t| && multiset(s) == multiset(t) && s[m..] == t[m..]
    ensures multiset(s[..m]) == multiset(t[..m])
  {
    assert s == s[..m] + s[m..];
    assert t == t[..m] + t[m..];
    assert multiset(s[..m]) == multiset(s) - multiset(s[m..]);
    assert multiset(t[..m]) == multiset(t) - multiset(t[m..]);
  }
}
