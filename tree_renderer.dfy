/**
  `generateDirectoryTree`: the ASCII tree of the directories and the
  qualifying files below a directory, one line per entry, depth first.
*/
module TreeRenderer {
  import opened Text
  import opened FileTree
  import opened Ordering

  /** The branch drawn in front of an entry. */
  function Branch(last: bool): string
  {
    if last then "└── " else "├── "
  }

  /** What the entries below a directory line are indented with. */
  function Continuation(last: bool): string
  {
    if last then "    " else "│   "
  }

  /** The entries of `d` that appear in the tree, filtered (lines 27-31) and sorted (lines 34-38). */
  function Visible(d: Node, dirPath: string, excluded: seq<string>): seq<Node>
    requires d.Dir?
  {
    SortEntries(Filter(dirPath, d.children, excluded))
  }

  /** The tree shows exactly the directories and the qualifying files among the entries. */
  lemma VisibleMembers(d: Node, dirPath: string, excluded: seq<string>)
    requires d.Dir?
    ensures forall x :: x in Visible(d, dirPath, excluded) <==> x in d.children && Qualifies(dirPath, x, excluded)
  {
    var filtered := Filter(dirPath, d.children, excluded);
    FilterMembers(dirPath, d.children, excluded);
    assert forall x :: x in SortEntries(filtered) <==> x in multiset(filtered);
  }

  lemma VisibleEntryIsChild(d: Node, dirPath: string, excluded: seq<string>, k: nat)
    requires d.Dir? && k < |Visible(d, dirPath, excluded)|
    ensures Visible(d, dirPath, excluded)[k] in d.children
    ensures Qualifies(dirPath, Visible(d, dirPath, excluded)[k], excluded)
  {
    VisibleMembers(d, dirPath, excluded);
    assert Visible(d, dirPath, excluded)[k] in Visible(d, dirPath, excluded);
  }

  /** The text `generateDirectoryTree(d, prefix, isLast)` returns. */
  function Tree(d: Node, dirPath: string, prefix: string, isLast: bool, excluded: seq<string>): string
    requires d.Dir?
    decreases d, 2, 0
  {
    TreeUpTo(d, dirPath, prefix, isLast, excluded, |Visible(d, dirPath, excluded)|)
  }

  /** The tree after the first `k` iterations of the loop at lines 40-55. */
  function TreeUpTo(d: Node, dirPath: string, prefix: string, isLast: bool, excluded: seq<string>, k: nat): string
    requires d.Dir? && k <= |Visible(d, dirPath, excluded)|
    decreases d, 1, k
  {
    if k == 0 then ""
    else TreeUpTo(d, dirPath, prefix, isLast, excluded, k - 1) + EntryLines(d, dirPath, prefix, isLast, excluded, k - 1)
  }

  /**
    What iteration `k` appends. A directory line takes its branch, and its
    entries their indentation, from the `isLast` flag of the directory being
    listed (lines 46 and 49), and passes its own position down (line 50); a
    file line takes its branch from its own position (line 53).
  */
  function EntryLines(d: Node, dirPath: string, prefix: string, isLast: bool, excluded: seq<string>, k: nat): string
    requires d.Dir? && k < |Visible(d, dirPath, excluded)|
    decreases d, 0, 0
  {
    var items := Visible(d, dirPath, excluded);
    var item := items[k];
    var isLastItem := k == |items| - 1;
    VisibleEntryIsChild(d, dirPath, excluded, k);
    if item.Dir? then
      HeadLine(prefix, isLast, isLastItem, item)
      + Tree(item, ChildPath(dirPath, item.name), prefix + Continuation(isLast), isLastItem, excluded)
    else
      HeadLine(prefix, isLast, isLastItem, item)
  }

  /**
    The line an entry gets in the tree: a directory line takes its branch from
    the `isLast` flag of the directory being listed (line 46) and ends in "/",
    a file line takes its branch from its own position (line 53).
  */
  function HeadLine(prefix: string, isLast: bool, isLastItem: bool, item: Node): (r: string)
    ensures |r| > 0 && r[|r| - 1] == '\n'
  {
    if item.Dir? then prefix + Branch(isLast) + item.name + "/\n"
    else prefix + Branch(isLastItem) + item.name + "\n"
  }

  /** The listing sorted in place is the one `Visible` describes. */
  lemma SortedListingIsVisible(d: Node, dirPath: string, excluded: seq<string>, s: seq<Node>)
    requires d.Dir? && WellFormed(d)
    requires Sorted(s) && multiset(s) == multiset(Filter(dirPath, d.children, excluded))
    ensures s == Visible(d, dirPath, excluded)
  {
    var filtered := Filter(dirPath, d.children, excluded);
    SortEntriesSorted(filtered);
    FilterMembers(dirPath, d.children, excluded);
    assert forall x :: x in s ==> x in multiset(filtered);
    SortedPermutationUnique(s, SortEntries(filtered));
  }

  /**
    Lines 27-38: the entries of `d` filtered into a fresh array, which is then
    sorted in place; the result is the listing the tree shows.
  */
  method SortedEntries(d: Node, dirPath: string, excluded: seq<string>) returns (listing: seq<Node>)
    requires d.Dir? && WellFormed(d)
    ensures listing == Visible(d, dirPath, excluded)
  {
    var filtered := Filter(dirPath, d.children, excluded);
    var items := new Node[|filtered|](k requires 0 <= k < |filtered| => filtered[k]);
    assert items[..] == filtered;
    SortInPlace(items);
    SortedListingIsVisible(d, dirPath, excluded, items[..]);
    listing := items[..];
  }

  /** `generateDirectoryTree(dir, prefix, isLast)` at lines 22-58. */
  method GenerateDirectoryTree(d: Node, dirPath: string, prefix: string, isLast: bool, excluded: seq<string>)
    returns (tree: string)
    requires d.Dir? && WellFormed(d)
    ensures tree == Tree(d, dirPath, prefix, isLast, excluded)
    decreases d, 1
  {
    var listing := SortedEntries(d, dirPath, excluded);
    tree := "";
    var i := 0;
    while i < |listing|
      invariant 0 <= i <= |listing|
      invariant tree == TreeUpTo(d, dirPath, prefix, isLast, excluded, i)
    {
      var lines := RenderEntry(d, dirPath, prefix, isLast, excluded, listing, i);
      TreeUpToUnfold(d, dirPath, prefix, isLast, excluded, i + 1);
      tree := tree + lines;
      i := i + 1;
    }
  }

  /** One iteration of the loop at lines 40-55: the line of entry `k`, and below a directory its own tree. */
  method RenderEntry(d: Node, dirPath: string, prefix: string, isLast: bool, excluded: seq<string>,
                     listing: seq<Node>, k: nat) returns (lines: string)
    requires d.Dir? && WellFormed(d)
    requires listing == Visible(d, dirPath, excluded) && k < |listing|
    ensures lines == EntryLines(d, dirPath, prefix, isLast, excluded, k)
    decreases d, 0
  {
    var item := listing[k];
    var isLastItem := k == |listing| - 1;
    VisibleEntryIsChild(d, dirPath, excluded, k);
    if item.Dir? {
      lines := prefix + Branch(isLast) + item.name + "/\n";
      var sub := GenerateDirectoryTree(item, ChildPath(dirPath, item.name), prefix + Continuation(isLast), isLastItem, excluded);
      lines := lines + sub;
    } else {
      lines := prefix + Branch(isLastItem) + item.name + "\n";
    }
  }

  /** Later iterations only append: the tree after `k` iterations begins the tree after `m`. */
  lemma TreeUpToExtends(d: Node, dirPath: string, prefix: string, isLast: bool, excluded: seq<string>, k: nat, m: nat)
    requires d.Dir? && k <= m <= |Visible(d, dirPath, excluded)|
    ensures TreeUpTo(d, dirPath, prefix, isLast, excluded, k) <= TreeUpTo(d, dirPath, prefix, isLast, excluded, m)
  {
    TreeUpToFlatten(d, dirPath, prefix, isLast, excluded, k);
    TreeUpToFlatten(d, dirPath, prefix, isLast, excluded, m);
    EntryPartsPrefix(d, dirPath, prefix, isLast, excluded, k, m);
    FlattenPrefix(EntryParts(d, dirPath, prefix, isLast, excluded, m), k);
  }

  /** The parts of the first `k` iterations begin the parts of the first `m`. */
  lemma {:induction false} EntryPartsPrefix(d: Node, dirPath: string, prefix: string, isLast: bool, excluded: seq<string>, k: nat, m: nat)
    requires d.Dir? && k <= m <= |Visible(d, dirPath, excluded)|
    ensures |EntryParts(d, dirPath, prefix, isLast, excluded, m)| == m
    ensures EntryParts(d, dirPath, prefix, isLast, excluded, m)[..k] == EntryParts(d, dirPath, prefix, isLast, excluded, k)
    decreases m
  {
    TreeUpToFlatten(d, dirPath, prefix, isLast, excluded, m);
    if k < m {
      EntryPartsPrefix(d, dirPath, prefix, isLast, excluded, k, m - 1);
      EntryPartsUnfold(d, dirPath, prefix, isLast, excluded, m);
      TakeSnoc(EntryParts(d, dirPath, prefix, isLast, excluded, m), EntryParts(d, dirPath, prefix, isLast, excluded, m - 1), EntryLines(d, dirPath, prefix, isLast, excluded, m - 1), k, EntryParts(d, dirPath, prefix, isLast, excluded, k));
    } else {
      TakeAll(EntryParts(d, dirPath, prefix, isLast, excluded, m));
    }
  }

  /** The text of iteration `k` begins with the entry's own line. */
  lemma EntryLinesBeginWithHead(d: Node, dirPath: string, prefix: string, isLast: bool, excluded: seq<string>, k: nat)
    requires d.Dir? && k < |Visible(d, dirPath, excluded)|
    ensures HeadLine(prefix, isLast, k == |Visible(d, dirPath, excluded)| - 1, Visible(d, dirPath, excluded)[k])
              <= EntryLines(d, dirPath, prefix, isLast, excluded, k)
  {
    var items := Visible(d, dirPath, excluded);
    var head := HeadLine(prefix, isLast, k == |items| - 1, items[k]);
    if items[k].Dir? {
      VisibleEntryIsChild(d, dirPath, excluded, k);
      var sub := Tree(items[k], ChildPath(dirPath, items[k].name), prefix + Continuation(isLast), k == |items| - 1, excluded);
      assert EntryLines(d, dirPath, prefix, isLast, excluded, k) == head + sub;
      assert (head + sub)[..|head|] == head;
    }
  }

  /** `s` ends at a line boundary: it is empty or its last character is a newline. */
  predicate AtLineStart(s: string)
  {
    s == [] || s[|s| - 1] == '\n'
  }

  /** `line` starts at a line boundary of `text`: some text ending at a boundary, then `line`, begins `text`. */
  ghost predicate LineOf(line: string, text: string)
  {
    exists pre :: AtLineStart(pre) && pre + line <= text
  }

  lemma AtLineStartConcat(x: string, y: string)
    requires AtLineStart(x) && AtLineStart(y)
    ensures AtLineStart(x + y)
  {
    if y == [] {
      assert x + y == x;
    }
  }

  /** `s` is not empty and its last character is a newline. */
  predicate EndsInNewline(s: string)
  {
    |s| > 0 && s[|s| - 1] == '\n'
  }

  /** Whatever comes before it, a text that ends with a newline ends at a line boundary. */
  lemma EndsWithLine(x: string, y: string)
    requires EndsInNewline(y)
    ensures AtLineStart(x + y)
  {
  }

  /** A prefix of `y` put after `a` begins any text that `a + y` begins. */
  lemma PrefixCompose(a: string, x: string, y: string, t: string)
    requires x <= y && a + y <= t
    ensures a + x <= t
  {
    assert (a + y)[..|a + x|] == a + x;
  }

  /** A tree, and so every run of iterations, ends at a line boundary. */
  lemma {:induction false} TreeEndsLine(d: Node, dirPath: string, prefix: string, isLast: bool, excluded: seq<string>)
    requires d.Dir?
    ensures AtLineStart(Tree(d, dirPath, prefix, isLast, excluded))
    decreases d, 2, 0
  {
    TreeUpToEndsLine(d, dirPath, prefix, isLast, excluded, |Visible(d, dirPath, excluded)|);
  }

  lemma {:induction false} TreeUpToEndsLine(d: Node, dirPath: string, prefix: string, isLast: bool, excluded: seq<string>, k: nat)
    requires d.Dir? && k <= |Visible(d, dirPath, excluded)|
    ensures AtLineStart(TreeUpTo(d, dirPath, prefix, isLast, excluded, k))
    decreases d, 1, k
  {
    if k > 0 {
      EntryLinesEndsLine(d, dirPath, prefix, isLast, excluded, k - 1);
      TreeUpToEndsLineStep(d, dirPath, prefix, isLast, excluded, k);
    }
  }

  lemma TreeUpToEndsLineStep(d: Node, dirPath: string, prefix: string, isLast: bool, excluded: seq<string>, k: nat)
    requires d.Dir? && 0 < k <= |Visible(d, dirPath, excluded)|
    requires EndsInNewline(EntryLines(d, dirPath, prefix, isLast, excluded, k - 1))
    ensures AtLineStart(TreeUpTo(d, dirPath, prefix, isLast, excluded, k))
  {
    TreeUpToUnfold(d, dirPath, prefix, isLast, excluded, k);
    EndsWithLine(TreeUpTo(d, dirPath, prefix, isLast, excluded, k - 1), EntryLines(d, dirPath, prefix, isLast, excluded, k - 1));
  }

  /** What one iteration appends is not empty and ends with a newline. */
  lemma {:induction false} EntryLinesEndsLine(d: Node, dirPath: string, prefix: string, isLast: bool, excluded: seq<string>, k: nat)
    requires d.Dir? && k < |Visible(d, dirPath, excluded)|
    ensures EndsInNewline(EntryLines(d, dirPath, prefix, isLast, excluded, k))
    decreases d, 0, 0
  {
    var items := Visible(d, dirPath, excluded);
    var item := items[k];
    var head := HeadLine(prefix, isLast, k == |items| - 1, item);
    VisibleEntryIsChild(d, dirPath, excluded, k);
    if item.Dir? {
      var sub := Tree(item, ChildPath(dirPath, item.name), prefix + Continuation(isLast), k == |items| - 1, excluded);
      TreeEndsLine(item, ChildPath(dirPath, item.name), prefix + Continuation(isLast), k == |items| - 1, excluded);
      AtLineStartConcat(head, sub);
      EntryLinesOfDirectory(d, dirPath, prefix, isLast, excluded, k);
    }
  }

  /** The line of entry `k` follows directly on the lines of the entries before it. */
  lemma HeadLineAt(d: Node, dirPath: string, prefix: string, isLast: bool, excluded: seq<string>, k: nat)
    requires d.Dir? && k < |Visible(d, dirPath, excluded)|
    ensures TreeUpTo(d, dirPath, prefix, isLast, excluded, k)
              + HeadLine(prefix, isLast, k == |Visible(d, dirPath, excluded)| - 1, Visible(d, dirPath, excluded)[k])
              <= Tree(d, dirPath, prefix, isLast, excluded)
  {
    var n := |Visible(d, dirPath, excluded)|;
    HeadLineInIteration(d, dirPath, prefix, isLast, excluded, k);
    TreeUpToExtends(d, dirPath, prefix, isLast, excluded, k + 1, n);
    PrefixTransitive(TreeUpTo(d, dirPath, prefix, isLast, excluded, k)
                       + HeadLine(prefix, isLast, k == n - 1, Visible(d, dirPath, excluded)[k]),
                     TreeUpTo(d, dirPath, prefix, isLast, excluded, k + 1),
                     Tree(d, dirPath, prefix, isLast, excluded));
  }

  /** Iteration `k` begins with its head line. */
  lemma HeadLineInIteration(d: Node, dirPath: string, prefix: string, isLast: bool, excluded: seq<string>, k: nat)
    requires d.Dir? && k < |Visible(d, dirPath, excluded)|
    ensures TreeUpTo(d, dirPath, prefix, isLast, excluded, k)
              + HeadLine(prefix, isLast, k == |Visible(d, dirPath, excluded)| - 1, Visible(d, dirPath, excluded)[k])
              <= TreeUpTo(d, dirPath, prefix, isLast, excluded, k + 1)
  {
    TreeUpToUnfold(d, dirPath, prefix, isLast, excluded, k + 1);
    EntryLinesBeginWithHead(d, dirPath, prefix, isLast, excluded, k);
    PrefixExtend(TreeUpTo(d, dirPath, prefix, isLast, excluded, k),
                 HeadLine(prefix, isLast, k == |Visible(d, dirPath, excluded)| - 1, Visible(d, dirPath, excluded)[k]),
                 EntryLines(d, dirPath, prefix, isLast, excluded, k));
  }

  lemma PrefixExtend(a: string, x: string, y: string)
    requires x <= y
    ensures a + x <= a + y
  {
    assert (a + y)[..|a + x|] == a + x;
  }

  lemma PrefixTransitive(x: string, y: string, z: string)
    requires x <= y && y <= z
    ensures x <= z
  {
  }

  /**
    Below the line of a directory entry comes that directory's own tree, drawn
    with the continuation prefix of the directory being listed and with the
    entry's own position as its flag (lines 47-51).
  */
  lemma SubtreeAt(d: Node, dirPath: string, prefix: string, isLast: bool, excluded: seq<string>, k: nat)
    requires d.Dir? && k < |Visible(d, dirPath, excluded)| && Visible(d, dirPath, excluded)[k].Dir?
    ensures var item := Visible(d, dirPath, excluded)[k];
            var isLastItem := k == |Visible(d, dirPath, excluded)| - 1;
            TreeUpTo(d, dirPath, prefix, isLast, excluded, k)
              + HeadLine(prefix, isLast, isLastItem, item)
              + Tree(item, ChildPath(dirPath, item.name), prefix + Continuation(isLast), isLastItem, excluded)
              <= Tree(d, dirPath, prefix, isLast, excluded)
  {
    var n := |Visible(d, dirPath, excluded)|;
    var item := Visible(d, dirPath, excluded)[k];
    TreeUpToUnfold(d, dirPath, prefix, isLast, excluded, k + 1);
    EntryLinesOfDirectory(d, dirPath, prefix, isLast, excluded, k);
    TreeUpToExtends(d, dirPath, prefix, isLast, excluded, k + 1, n);
    PrefixRegroup(TreeUpTo(d, dirPath, prefix, isLast, excluded, k),
                  HeadLine(prefix, isLast, k == n - 1, item),
                  Tree(item, ChildPath(dirPath, item.name), prefix + Continuation(isLast), k == n - 1, excluded),
                  TreeUpTo(d, dirPath, prefix, isLast, excluded, k + 1),
                  Tree(d, dirPath, prefix, isLast, excluded));
  }

  lemma PrefixRegroup(a: string, b: string, c: string, u: string, t: string)
    requires u == a + (b + c) && u <= t
    ensures a + b + c <= t
  {
    assert a + (b + c) == a + b + c;
  }

  /** What iteration `k` appends for a directory: its line, then its own tree. */
  lemma EntryLinesOfDirectory(d: Node, dirPath: string, prefix: string, isLast: bool, excluded: seq<string>, k: nat)
    requires d.Dir? && k < |Visible(d, dirPath, excluded)| && Visible(d, dirPath, excluded)[k].Dir?
    ensures var item := Visible(d, dirPath, excluded)[k];
            var isLastItem := k == |Visible(d, dirPath, excluded)| - 1;
            EntryLines(d, dirPath, prefix, isLast, excluded, k) ==
              HeadLine(prefix, isLast, isLastItem, item)
              + Tree(item, ChildPath(dirPath, item.name), prefix + Continuation(isLast), isLastItem, excluded)
  {
  }

  /**
    Every directory and every qualifying file of `d` has its line in the tree,
    at a line boundary, with the branch its position in the sorted listing gives it.
  */
  lemma TreeListsEntry(d: Node, dirPath: string, prefix: string, isLast: bool, excluded: seq<string>, c: Node)
    requires d.Dir? && c in d.children && Qualifies(dirPath, c, excluded)
    ensures exists k :: 0 <= k < |Visible(d, dirPath, excluded)| && Visible(d, dirPath, excluded)[k] == c &&
              LineOf(HeadLine(prefix, isLast, k == |Visible(d, dirPath, excluded)| - 1, c), Tree(d, dirPath, prefix, isLast, excluded))
  {
    VisibleMembers(d, dirPath, excluded);
    var k :| 0 <= k < |Visible(d, dirPath, excluded)| && Visible(d, dirPath, excluded)[k] == c;
    HeadLineAt(d, dirPath, prefix, isLast, excluded, k);
    TreeUpToEndsLine(d, dirPath, prefix, isLast, excluded, k);
  }

  /**
    The lines drawn for the entries at any depth below `d`: the line of an
    entry of `d`'s sorted listing, with the branch its place gives it, or a line
    drawn below a subdirectory entry, whose prefix has the continuation of `d`
    added.
  */
  ghost predicate Draws(d: Node, dirPath: string, prefix: string, isLast: bool, excluded: seq<string>, line: string)
    decreases d, 1
  {
    d.Dir? && exists k :: 0 <= k < |Visible(d, dirPath, excluded)| && EntryDraws(d, dirPath, prefix, isLast, excluded, k, line)
  }

  ghost predicate EntryDraws(d: Node, dirPath: string, prefix: string, isLast: bool, excluded: seq<string>, k: nat, line: string)
    requires d.Dir? && k < |Visible(d, dirPath, excluded)|
    decreases d, 0
  {
    var items := Visible(d, dirPath, excluded);
    var item := items[k];
    VisibleEntryIsChild(d, dirPath, excluded, k);
    || line == HeadLine(prefix, isLast, k == |items| - 1, item)
    || (item.Dir? && Draws(item, ChildPath(dirPath, item.name), prefix + Continuation(isLast), k == |items| - 1, excluded, line))
  }

  /** Every line drawn for an entry at any depth below `d` starts at a line boundary of the tree. */
  lemma {:induction false} DrawnLinesInTree(d: Node, dirPath: string, prefix: string, isLast: bool, excluded: seq<string>, line: string)
    requires d.Dir? && Draws(d, dirPath, prefix, isLast, excluded, line)
    ensures LineOf(line, Tree(d, dirPath, prefix, isLast, excluded))
    decreases d, 1
  {
    var k :| 0 <= k < |Visible(d, dirPath, excluded)| && EntryDraws(d, dirPath, prefix, isLast, excluded, k, line);
    EntryDrawnInTree(d, dirPath, prefix, isLast, excluded, k, line);
  }

  lemma {:induction false} EntryDrawnInTree(d: Node, dirPath: string, prefix: string, isLast: bool, excluded: seq<string>, k: nat, line: string)
    requires d.Dir? && k < |Visible(d, dirPath, excluded)| && EntryDraws(d, dirPath, prefix, isLast, excluded, k, line)
    ensures LineOf(line, Tree(d, dirPath, prefix, isLast, excluded))
    decreases d, 0
  {
    var items := Visible(d, dirPath, excluded);
    var item := items[k];
    var isLastItem := k == |items| - 1;
    var head := HeadLine(prefix, isLast, isLastItem, item);
    var before := TreeUpTo(d, dirPath, prefix, isLast, excluded, k);
    VisibleEntryIsChild(d, dirPath, excluded, k);
    TreeUpToEndsLine(d, dirPath, prefix, isLast, excluded, k);
    if line == head {
      HeadLineAt(d, dirPath, prefix, isLast, excluded, k);
    } else {
      var childPath := ChildPath(dirPath, item.name);
      var childPrefix := prefix + Continuation(isLast);
      var sub := Tree(item, childPath, childPrefix, isLastItem, excluded);
      DrawnLinesInTree(item, childPath, childPrefix, isLastItem, excluded, line);
      var pre :| AtLineStart(pre) && pre + line <= sub;
      SubtreeAt(d, dirPath, prefix, isLast, excluded, k);
      NestedLine(before + head, pre, line, sub, Tree(d, dirPath, prefix, isLast, excluded));
    }
  }

  /** A line of a subtree is a line of any text the subtree sits in after a line boundary. */
  lemma NestedLine(a: string, pre: string, line: string, sub: string, t: string)
    requires AtLineStart(a) && AtLineStart(pre) && pre + line <= sub && a + sub <= t
    ensures LineOf(line, t)
  {
    AtLineStartConcat(a, pre);
    PrefixCompose(a, pre + line, sub, t);
    assert a + (pre + line) == (a + pre) + line;
  }

  /** The lines drawn for the entries below `d`, at any depth. */
  ghost function DrawnLines(d: Node, dirPath: string, prefix: string, isLast: bool, excluded: seq<string>): iset<string>
  {
    iset line | Draws(d, dirPath, prefix, isLast, excluded, line)
  }

  /**
    Conversely, every line of the tree was drawn for an entry of the filtered,
    sorted listing at some depth, and the tree ends at a line boundary: no line
    stands for an excluded or a non-`.dart` file, however deep.
  */
  lemma TreeLinesAreDrawn(d: Node, dirPath: string, prefix: string, isLast: bool, excluded: seq<string>)
    requires d.Dir? && NamesOnOneLine(d) && '\n' !in prefix
    ensures var ls := Split(Tree(d, dirPath, prefix, isLast, excluded));
            && ls[|ls| - 1] == ""
            && forall i :: 0 <= i < |ls| - 1 ==> Draws(d, dirPath, prefix, isLast, excluded, ls[i] + "\n")
  {
    var tree := Tree(d, dirPath, prefix, isLast, excluded);
    var lines := DrawnLines(d, dirPath, prefix, isLast, excluded);
    TreeLinesDrawn(d, dirPath, prefix, isLast, excluded);
    LinesInEnds(tree, lines);
    forall i | 0 <= i < |Split(tree)| - 1 ensures Draws(d, dirPath, prefix, isLast, excluded, Split(tree)[i] + "\n") {
      LinesInAt(tree, lines, i);
    }
  }

  lemma {:induction false} TreeLinesDrawn(d: Node, dirPath: string, prefix: string, isLast: bool, excluded: seq<string>)
    requires d.Dir? && NamesOnOneLine(d) && '\n' !in prefix
    ensures LinesIn(Tree(d, dirPath, prefix, isLast, excluded), DrawnLines(d, dirPath, prefix, isLast, excluded))
    decreases d, 2, 0
  {
    var n := |Visible(d, dirPath, excluded)|;
    var parts := EntryParts(d, dirPath, prefix, isLast, excluded, n);
    TreeUpToFlatten(d, dirPath, prefix, isLast, excluded, n);
    forall j | 0 <= j < |parts|
      ensures LinesIn(parts[j], DrawnLines(d, dirPath, prefix, isLast, excluded))
    {
      EntryPartsAt(d, dirPath, prefix, isLast, excluded, n, j);
      EntryLinesDrawn(d, dirPath, prefix, isLast, excluded, j);
    }
    FlattenLinesIn(parts, DrawnLines(d, dirPath, prefix, isLast, excluded));
  }

  /** What the first `k` iterations append, one part per iteration. */
  ghost function EntryParts(d: Node, dirPath: string, prefix: string, isLast: bool, excluded: seq<string>, k: nat): seq<string>
    requires d.Dir? && k <= |Visible(d, dirPath, excluded)|
    decreases k
  {
    if k == 0 then [] else EntryParts(d, dirPath, prefix, isLast, excluded, k - 1) + [EntryLines(d, dirPath, prefix, isLast, excluded, k - 1)]
  }

  lemma EntryPartsUnfold(d: Node, dirPath: string, prefix: string, isLast: bool, excluded: seq<string>, k: nat)
    requires d.Dir? && 0 < k <= |Visible(d, dirPath, excluded)|
    ensures EntryParts(d, dirPath, prefix, isLast, excluded, k) == EntryParts(d, dirPath, prefix, isLast, excluded, k - 1) + [EntryLines(d, dirPath, prefix, isLast, excluded, k - 1)]
  {
  }

  /** The tree so far is its iterations' parts written one after another. */
  lemma {:induction false} TreeUpToFlatten(d: Node, dirPath: string, prefix: string, isLast: bool, excluded: seq<string>, k: nat)
    requires d.Dir? && k <= |Visible(d, dirPath, excluded)|
    ensures |EntryParts(d, dirPath, prefix, isLast, excluded, k)| == k
    ensures TreeUpTo(d, dirPath, prefix, isLast, excluded, k) == Flatten(EntryParts(d, dirPath, prefix, isLast, excluded, k))
    decreases k
  {
    if k > 0 {
      TreeUpToFlatten(d, dirPath, prefix, isLast, excluded, k - 1);
      EntryPartsUnfold(d, dirPath, prefix, isLast, excluded, k);
      TreeUpToUnfold(d, dirPath, prefix, isLast, excluded, k);
      FlattenSnoc(EntryParts(d, dirPath, prefix, isLast, excluded, k), EntryParts(d, dirPath, prefix, isLast, excluded, k - 1), EntryLines(d, dirPath, prefix, isLast, excluded, k - 1));
    }
  }

  /** Part `j` is what iteration `j` appends. */
  lemma {:induction false} EntryPartsAt(d: Node, dirPath: string, prefix: string, isLast: bool, excluded: seq<string>, k: nat, j: nat)
    requires d.Dir? && j < k <= |Visible(d, dirPath, excluded)|
    ensures |EntryParts(d, dirPath, prefix, isLast, excluded, k)| == k
    ensures EntryParts(d, dirPath, prefix, isLast, excluded, k)[j] == EntryLines(d, dirPath, prefix, isLast, excluded, j)
    decreases k
  {
    TreeUpToFlatten(d, dirPath, prefix, isLast, excluded, k);
    if j < k - 1 {
      EntryPartsAt(d, dirPath, prefix, isLast, excluded, k - 1, j);
      EntryPartsUnfold(d, dirPath, prefix, isLast, excluded, k);
      FlattenSnoc(EntryParts(d, dirPath, prefix, isLast, excluded, k), EntryParts(d, dirPath, prefix, isLast, excluded, k - 1), EntryLines(d, dirPath, prefix, isLast, excluded, k - 1));
    }
  }

  /** Every line iteration `k` appends is drawn for entry `k` or inside its subtree. */
  lemma {:induction false} EntryLinesDrawn(d: Node, dirPath: string, prefix: string, isLast: bool, excluded: seq<string>, k: nat)
    requires d.Dir? && NamesOnOneLine(d) && '\n' !in prefix
    requires k < |Visible(d, dirPath, excluded)|
    ensures LinesIn(EntryLines(d, dirPath, prefix, isLast, excluded, k), DrawnLines(d, dirPath, prefix, isLast, excluded))
    decreases d, 0, 0
  {
    var items := Visible(d, dirPath, excluded);
    var item := items[k];
    var isLastItem := k == |items| - 1;
    var lines := DrawnLines(d, dirPath, prefix, isLast, excluded);
    VisibleEntryIsChild(d, dirPath, excluded, k);
    HeadLineDrawn(d, dirPath, prefix, isLast, excluded, k);
    if item.Dir? {
      var childPath := ChildPath(dirPath, item.name);
      var childPrefix := prefix + Continuation(isLast);
      var sub := Tree(item, childPath, childPrefix, isLastItem, excluded);
      assert NamesOnOneLine(item);
      assert '\n' !in Continuation(isLast);
      TreeLinesDrawn(item, childPath, childPrefix, isLastItem, excluded);
      SubtreeLinesDrawn(d, dirPath, prefix, isLast, excluded, k);
      LinesInSubset(sub, DrawnLines(item, childPath, childPrefix, isLastItem, excluded), lines);
      LinesInConcat(HeadLine(prefix, isLast, isLastItem, item), sub, lines);
      EntryLinesOfDirectory(d, dirPath, prefix, isLast, excluded, k);
    }
  }

  /** The line of entry `k` is one line, and a drawn one. */
  lemma HeadLineDrawn(d: Node, dirPath: string, prefix: string, isLast: bool, excluded: seq<string>, k: nat)
    requires d.Dir? && NamesOnOneLine(d) && '\n' !in prefix
    requires k < |Visible(d, dirPath, excluded)|
    ensures LinesIn(HeadLine(prefix, isLast, k == |Visible(d, dirPath, excluded)| - 1, Visible(d, dirPath, excluded)[k]), DrawnLines(d, dirPath, prefix, isLast, excluded))
  {
    var items := Visible(d, dirPath, excluded);
    var item := items[k];
    var isLastItem := k == |items| - 1;
    var head := HeadLine(prefix, isLast, isLastItem, item);
    var lines := DrawnLines(d, dirPath, prefix, isLast, excluded);
    VisibleEntryIsChild(d, dirPath, excluded, k);
    assert NamesOnOneLine(item);
    assert EntryDraws(d, dirPath, prefix, isLast, excluded, k, head);
    assert head in lines;
    var x := if item.Dir? then prefix + Branch(isLast) + item.name + "/" else prefix + Branch(isLastItem) + item.name;
    assert '\n' !in Branch(isLast) && '\n' !in Branch(isLastItem);
    assert head == x + "\n";
    LinesInLine(x, lines);
  }

  /** What is drawn inside the subtree of entry `k` is drawn for `d`. */
  lemma SubtreeLinesDrawn(d: Node, dirPath: string, prefix: string, isLast: bool, excluded: seq<string>, k: nat)
    requires d.Dir? && k < |Visible(d, dirPath, excluded)| && Visible(d, dirPath, excluded)[k].Dir?
    ensures var item := Visible(d, dirPath, excluded)[k];
            DrawnLines(item, ChildPath(dirPath, item.name), prefix + Continuation(isLast),
                       k == |Visible(d, dirPath, excluded)| - 1, excluded) <= DrawnLines(d, dirPath, prefix, isLast, excluded)
  {
    var items := Visible(d, dirPath, excluded);
    var item := items[k];
    var isLastItem := k == |items| - 1;
    forall line | line in DrawnLines(item, ChildPath(dirPath, item.name), prefix + Continuation(isLast), isLastItem, excluded)
      ensures line in DrawnLines(d, dirPath, prefix, isLast, excluded)
    {
      assert EntryDraws(d, dirPath, prefix, isLast, excluded, k, line);
    }
  }

  /** A directory renders as "" exactly when none of its entries is a directory or a qualifying file. */
  lemma TreeEmpty(d: Node, dirPath: string, prefix: string, isLast: bool, excluded: seq<string>)
    requires d.Dir?
    ensures Tree(d, dirPath, prefix, isLast, excluded) == "" <==>
              forall c :: c in d.children ==> !Qualifies(dirPath, c, excluded)
  {
    VisibleMembers(d, dirPath, excluded);
    var items := Visible(d, dirPath, excluded);
    var tree := Tree(d, dirPath, prefix, isLast, excluded);
    if items == [] {
      assert tree == TreeUpTo(d, dirPath, prefix, isLast, excluded, 0) == "";
    } else {
      var last := EntryLines(d, dirPath, prefix, isLast, excluded, |items| - 1);
      assert tree == TreeUpTo(d, dirPath, prefix, isLast, excluded, |items|);
      assert tree == TreeUpTo(d, dirPath, prefix, isLast, excluded, |items| - 1) + last;
      EntryLinesNonEmpty(d, dirPath, prefix, isLast, excluded, |items| - 1);
      assert items[0] in items;
    }
  }

  lemma EntryLinesNonEmpty(d: Node, dirPath: string, prefix: string, isLast: bool, excluded: seq<string>, k: nat)
    requires d.Dir? && k < |Visible(d, dirPath, excluded)|
    ensures |EntryLines(d, dirPath, prefix, isLast, excluded, k)| > 0
  {
  }

  /** No name anywhere in the subtree holds a newline. */
  ghost predicate NamesOnOneLine(n: Node)
  {
    '\n' !in n.name && (n.Dir? ==> forall c :: c in n.children ==> NamesOnOneLine(c))
  }

  /** How many tree lines entry `c` of the directory at `dirPath` accounts for. */
  function Weight(dirPath: string, excluded: seq<string>, c: Node): nat
    decreases c, 2, 0
  {
    if c.Dir? then 1 + Census(c, ChildPath(dirPath, c.name), excluded)
    else if Qualifies(dirPath, c, excluded) then 1
    else 0
  }

  /** The number of directories and qualifying files strictly below `d`, counted in listing order. */
  function Census(d: Node, dirPath: string, excluded: seq<string>): nat
    decreases d, 1, 0
  {
    if d.File? then 0 else CensusUpTo(d, dirPath, excluded, |d.children|)
  }

  function CensusUpTo(d: Node, dirPath: string, excluded: seq<string>, k: nat): nat
    requires d.Dir? && k <= |d.children|
    decreases d, 0, k
  {
    if k == 0 then 0
    else CensusUpTo(d, dirPath, excluded, k - 1) + Weight(dirPath, excluded, d.children[k - 1])
  }

  /** The weights of a sequence of entries of one directory, added up. */
  function WeightSum(dirPath: string, excluded: seq<string>, s: seq<Node>): nat
  {
    if s == [] then 0 else WeightSum(dirPath, excluded, s[..|s| - 1]) + Weight(dirPath, excluded, s[|s| - 1])
  }

  lemma {:induction false} WeightSumAppend(dirPath: string, excluded: seq<string>, a: seq<Node>, b: seq<Node>)
    ensures WeightSum(dirPath, excluded, a + b) == WeightSum(dirPath, excluded, a) + WeightSum(dirPath, excluded, b)
    decreases |b|
  {
    if b == [] {
      assert a + b == a;
    } else {
      assert (a + b)[..|a + b| - 1] == a + b[..|b| - 1];
      WeightSumAppend(dirPath, excluded, a, b[..|b| - 1]);
    }
  }

  /** The sum does not depend on the order of the entries. */
  lemma {:induction false} WeightSumPermutation(dirPath: string, excluded: seq<string>, s: seq<Node>, t: seq<Node>)
    requires multiset(s) == multiset(t)
    ensures WeightSum(dirPath, excluded, s) == WeightSum(dirPath, excluded, t)
    decreases |s|
  {
    if s != [] {
      var x := s[|s| - 1];
      var s' := s[..|s| - 1];
      assert x in multiset(t);
      var i :| 0 <= i < |t| && t[i] == x;
      var t' := t[..i] + t[i + 1..];
      PermutationWithout(s, t, i);
      WeightSumPermutation(dirPath, excluded, s', t');
      WeightSumRemove(dirPath, excluded, t, i);
      assert WeightSum(dirPath, excluded, s) == WeightSum(dirPath, excluded, s') + Weight(dirPath, excluded, x);
    }
  }

  /** Taking the last entry of `s` and an equal entry of `t` out of two permutations leaves permutations. */
  lemma PermutationWithout(s: seq<Node>, t: seq<Node>, i: nat)
    requires multiset(s) == multiset(t) && s != [] && i < |t| && t[i] == s[|s| - 1]
    ensures multiset(s[..|s| - 1]) == multiset(t[..i] + t[i + 1..])
  {
    MultisetWithout(s, |s| - 1);
    MultisetWithout(t, i);
    assert s[..|s| - 1] + s[|s|..] == s[..|s| - 1];
  }

  /** Taking entry `i` out of a sequence takes one occurrence of it out of the multiset. */
  lemma MultisetWithout(t: seq<Node>, i: nat)
    requires i < |t|
    ensures multiset(t[..i] + t[i + 1..]) == multiset(t) - multiset{t[i]}
  {
    assert t == t[..i] + [t[i]] + t[i + 1..];
  }

  /** Taking entry `i` out of a sequence takes its weight out of the sum. */
  lemma WeightSumRemove(dirPath: string, excluded: seq<string>, t: seq<Node>, i: nat)
    requires i < |t|
    ensures WeightSum(dirPath, excluded, t) ==
              WeightSum(dirPath, excluded, t[..i] + t[i + 1..]) + Weight(dirPath, excluded, t[i])
  {
    var x := t[i];
    assert t == t[..i] + [x] + t[i + 1..];
    WeightSumAppend(dirPath, excluded, t[..i] + [x], t[i + 1..]);
    WeightSumAppend(dirPath, excluded, t[..i], [x]);
    WeightSumAppend(dirPath, excluded, t[..i], t[i + 1..]);
    assert WeightSum(dirPath, excluded, [x]) == Weight(dirPath, excluded, x) by {
      assert [x][..0] == [];
    }
  }

  /** Entries the filter drops weigh nothing. */
  lemma {:induction false} WeightSumFilter(dirPath: string, excluded: seq<string>, s: seq<Node>)
    ensures WeightSum(dirPath, excluded, Filter(dirPath, s, excluded)) == WeightSum(dirPath, excluded, s)
    decreases |s|
  {
    if s != [] {
      WeightSumFilter(dirPath, excluded, s[1..]);
      assert s == [s[0]] + s[1..];
      WeightSumFilterStep(dirPath, excluded, s[0], s[1..]);
    }
  }

  lemma WeightSumFilterStep(dirPath: string, excluded: seq<string>, x: Node, rest: seq<Node>)
    requires WeightSum(dirPath, excluded, Filter(dirPath, rest, excluded)) == WeightSum(dirPath, excluded, rest)
    ensures WeightSum(dirPath, excluded, Filter(dirPath, [x] + rest, excluded)) == WeightSum(dirPath, excluded, [x] + rest)
  {
    assert ([x] + rest)[1..] == rest;
    WeightSumAppend(dirPath, excluded, [x], rest);
    WeightSumAppend(dirPath, excluded, [x], Filter(dirPath, rest, excluded));
    assert WeightSum(dirPath, excluded, [x]) == Weight(dirPath, excluded, x) by {
      assert [x][..0] == [];
    }
  }

  lemma {:induction false} CensusIsSum(d: Node, dirPath: string, excluded: seq<string>, k: nat)
    requires d.Dir? && k <= |d.children|
    ensures CensusUpTo(d, dirPath, excluded, k) == WeightSum(dirPath, excluded, d.children[..k])
  {
    if k > 0 {
      CensusIsSum(d, dirPath, excluded, k - 1);
      assert d.children[..k][..k - 1] == d.children[..k - 1];
    }
  }

  /** A line made of newline-free parts and one final newline. */
  lemma NewlinesOfLine(a: string, b: string, c: string, ending: string)
    requires '\n' !in a && '\n' !in b && '\n' !in c
    requires ending == "\n" || ending == "/\n"
    ensures Newlines(a + b + c + ending) == 1
  {
    NewlinesFree(a + b + c);
    NewlinesAppend(a + b + c, ending);
    assert Newlines("\n") == 1;
    assert Newlines("/\n") == 1;
  }

  /**
    The tree has exactly one line for every directory below `d` and one for
    every qualifying file below `d`, whatever the order of the listings.
  */
  lemma {:induction false} TreeLineCount(d: Node, dirPath: string, prefix: string, isLast: bool, excluded: seq<string>)
    requires d.Dir? && NamesOnOneLine(d) && '\n' !in prefix
    ensures Newlines(Tree(d, dirPath, prefix, isLast, excluded)) == Census(d, dirPath, excluded)
    decreases d, 2, 0
  {
    var items := Visible(d, dirPath, excluded);
    TreeUpToLineCount(d, dirPath, prefix, isLast, excluded, |items|);
    assert items[..|items|] == items;
    CensusIsVisibleSum(d, dirPath, excluded);
  }

  /** Counted over the sorted, filtered listing, the census is the same. */
  lemma CensusIsVisibleSum(d: Node, dirPath: string, excluded: seq<string>)
    requires d.Dir?
    ensures Census(d, dirPath, excluded) == WeightSum(dirPath, excluded, Visible(d, dirPath, excluded))
  {
    var filtered := Filter(dirPath, d.children, excluded);
    WeightSumPermutation(dirPath, excluded, SortEntries(filtered), filtered);
    WeightSumFilter(dirPath, excluded, d.children);
    CensusIsSum(d, dirPath, excluded, |d.children|);
    assert d.children[..|d.children|] == d.children;
  }

  lemma {:induction false} TreeUpToLineCount(d: Node, dirPath: string, prefix: string, isLast: bool, excluded: seq<string>, k: nat)
    requires d.Dir? && NamesOnOneLine(d) && '\n' !in prefix
    requires k <= |Visible(d, dirPath, excluded)|
    ensures Newlines(TreeUpTo(d, dirPath, prefix, isLast, excluded, k)) ==
              WeightSum(dirPath, excluded, Visible(d, dirPath, excluded)[..k])
    decreases d, 1, k
  {
    if k == 0 {
      assert Visible(d, dirPath, excluded)[..0] == [];
    } else {
      TreeUpToLineCount(d, dirPath, prefix, isLast, excluded, k - 1);
      EntryLinesLineCount(d, dirPath, prefix, isLast, excluded, k - 1);
      TreeUpToCountStep(d, dirPath, prefix, isLast, excluded, k);
    }
  }

  /** One more iteration adds the lines of its entry. */
  lemma TreeUpToCountStep(d: Node, dirPath: string, prefix: string, isLast: bool, excluded: seq<string>, k: nat)
    requires d.Dir? && 0 < k <= |Visible(d, dirPath, excluded)|
    requires Newlines(TreeUpTo(d, dirPath, prefix, isLast, excluded, k - 1)) ==
               WeightSum(dirPath, excluded, Visible(d, dirPath, excluded)[..k - 1])
    requires Newlines(EntryLines(d, dirPath, prefix, isLast, excluded, k - 1)) ==
               Weight(dirPath, excluded, Visible(d, dirPath, excluded)[k - 1])
    ensures Newlines(TreeUpTo(d, dirPath, prefix, isLast, excluded, k)) ==
              WeightSum(dirPath, excluded, Visible(d, dirPath, excluded)[..k])
  {
    TreeUpToUnfold(d, dirPath, prefix, isLast, excluded, k);
    NewlinesAppend(TreeUpTo(d, dirPath, prefix, isLast, excluded, k - 1), EntryLines(d, dirPath, prefix, isLast, excluded, k - 1));
    WeightSumSnoc(dirPath, excluded, Visible(d, dirPath, excluded), k);
  }

  lemma TreeUpToUnfold(d: Node, dirPath: string, prefix: string, isLast: bool, excluded: seq<string>, k: nat)
    requires d.Dir? && 0 < k <= |Visible(d, dirPath, excluded)|
    ensures TreeUpTo(d, dirPath, prefix, isLast, excluded, k) ==
              TreeUpTo(d, dirPath, prefix, isLast, excluded, k - 1) + EntryLines(d, dirPath, prefix, isLast, excluded, k - 1)
  {
  }

  lemma WeightSumSnoc(dirPath: string, excluded: seq<string>, s: seq<Node>, k: nat)
    requires 0 < k <= |s|
    ensures WeightSum(dirPath, excluded, s[..k]) == WeightSum(dirPath, excluded, s[..k - 1]) + Weight(dirPath, excluded, s[k - 1])
  {
    assert s[..k][..k - 1] == s[..k - 1];
  }

  lemma {:induction false} EntryLinesLineCount(d: Node, dirPath: string, prefix: string, isLast: bool, excluded: seq<string>, k: nat)
    requires d.Dir? && NamesOnOneLine(d) && '\n' !in prefix
    requires k < |Visible(d, dirPath, excluded)|
    ensures Newlines(EntryLines(d, dirPath, prefix, isLast, excluded, k)) ==
              Weight(dirPath, excluded, Visible(d, dirPath, excluded)[k])
    decreases d, 0, 0
  {
    var items := Visible(d, dirPath, excluded);
    var item := items[k];
    var isLastItem := k == |items| - 1;
    VisibleEntryIsChild(d, dirPath, excluded, k);
    if item.Dir? {
      var head := prefix + Branch(isLast) + item.name + "/\n";
      NewlinesOfLine(prefix, Branch(isLast), item.name, "/\n");
      var childPrefix := prefix + Continuation(isLast);
      TreeLineCount(item, ChildPath(dirPath, item.name), childPrefix, isLastItem, excluded);
      NewlinesAppend(head, Tree(item, ChildPath(dirPath, item.name), childPrefix, isLastItem, excluded));
    } else {
      NewlinesOfLine(prefix, Branch(isLastItem), item.name, "\n");
    }
  }
}
