/**
  Small exports worked out completely, for any names: the numbering of a
  two-line file, the tree of a directory with two entries, and the section
  written for a directory holding one file.
*/
module Scenarios {
  import opened Text
  import opened FileTree
  import opened Ordering
  import opened LineNumbers
  import opened TreeRenderer
  import opened Concatenator

  /** A text with one line break has two lines. */
  lemma SplitTwo(x: string, y: string)
    requires '\n' !in x && '\n' !in y
    ensures Split(x + "\n" + y) == [x, y]
  {
    JoinTwo(x, y);
    SplitJoin([x, y]);
  }

  lemma JoinTwo(x: string, y: string)
    ensures Join([x, y]) == x + "\n" + y
  {
    assert [x, y][1..] == [y];
  }

  /** With one-digit numbers nothing is padded. */
  lemma OneDigitLine(k: nat, line: string)
    requires 1 <= k <= 9
    ensures NumberedLine(k, 1, line) == [Digit(k)] + ": " + line
  {
    assert Decimal(k) == [Digit(k)];
    assert PadStart(Decimal(k), 1) == Decimal(k);
  }

  lemma NumberTwo(x: string, y: string)
    ensures NumberLines([x, y]) == [['1'] + ": " + x, ['2'] + ": " + y]
  {
    var n := NumberLines([x, y]);
    assert Decimal(2) == [Digit(2)];
    assert n[0] == NumberedLine(1, 1, x);
    assert n[1] == NumberedLine(2, 1, y);
    OneDigitLine(1, x);
    OneDigitLine(2, y);
    assert Digit(1) == '1' && Digit(2) == '2';
  }

  lemma SpelledTwo(x: string, y: string)
    ensures ['1'] + ": " + x + "\n" + (['2'] + ": " + y) == "1: " + x + "\n" + "2: " + y
  {
    assert ['1'] + ": " == "1: " && ['2'] + ": " == "2: ";
  }

  /** A two-line file is numbered "1: " and "2: ", without padding. */
  lemma TwoLinesNumbered(x: string, y: string)
    requires '\n' !in x && '\n' !in y
    ensures AddLineNumbers(x + "\n" + y) == "1: " + x + "\n" + "2: " + y
  {
    SplitTwo(x, y);
    NumberTwo(x, y);
    JoinTwo(['1'] + ": " + x, ['2'] + ": " + y);
    SpelledTwo(x, y);
  }

  /** An empty directory draws nothing below its own line. */
  lemma EmptyDirectoryTree(name: string, dirPath: string, prefix: string, isLast: bool, excluded: seq<string>)
    ensures Tree(Dir(name, []), dirPath, prefix, isLast, excluded) == ""
  {
    assert Filter(dirPath, [], excluded) == [];
    assert Visible(Dir(name, []), dirPath, excluded) == [];
  }

  /** A tree of two visible entries is their two parts, in order. */
  lemma TwoEntryTree(d: Node, dirPath: string, prefix: string, isLast: bool, excluded: seq<string>)
    requires d.Dir? && |Visible(d, dirPath, excluded)| == 2
    ensures Tree(d, dirPath, prefix, isLast, excluded) ==
              EntryLines(d, dirPath, prefix, isLast, excluded, 0) + EntryLines(d, dirPath, prefix, isLast, excluded, 1)
  {
    TreeUpToOne(d, dirPath, prefix, isLast, excluded);
    TreeUpToUnfold(d, dirPath, prefix, isLast, excluded, 2);
  }

  lemma TreeUpToOne(d: Node, dirPath: string, prefix: string, isLast: bool, excluded: seq<string>)
    requires d.Dir? && |Visible(d, dirPath, excluded)| >= 1
    ensures TreeUpTo(d, dirPath, prefix, isLast, excluded, 1) == EntryLines(d, dirPath, prefix, isLast, excluded, 0)
  {
    TreeUpToUnfold(d, dirPath, prefix, isLast, excluded, 1);
    assert "" + EntryLines(d, dirPath, prefix, isLast, excluded, 0) == EntryLines(d, dirPath, prefix, isLast, excluded, 0);
  }

  /** Two qualifying entries that are already in order keep it. */
  lemma TwoInOrder(dirPath: string, excluded: seq<string>, first: Node, second: Node)
    requires Qualifies(dirPath, first, excluded) && Qualifies(dirPath, second, excluded)
    requires EntryLe(first, second)
    ensures SortEntries(Filter(dirPath, [first, second], excluded)) == [first, second]
  {
    assert [first, second][1..] == [second];
    assert Filter(dirPath, [second], excluded) == [second];
    assert Filter(dirPath, [first, second], excluded) == [first, second];
    assert SortEntries([second]) == [second];
  }

  /**
    Two empty subdirectories of a directory drawn as a last entry both get
    "└── ": a directory line takes its branch from the directory being
    listed, not from its own position among its siblings.
  */
  lemma SiblingDirectoriesShareBranch(name: string, a: string, b: string, dirPath: string, excluded: seq<string>)
    requires CompareNames(a, b) < 0
    ensures Tree(Dir(name, [Dir(a, []), Dir(b, [])]), dirPath, "", true, excluded) ==
              "└── " + a + "/\n" + "└── " + b + "/\n"
  {
    var d := Dir(name, [Dir(a, []), Dir(b, [])]);
    TwoInOrder(dirPath, excluded, Dir(a, []), Dir(b, []));
    var items := Visible(d, dirPath, excluded);
    assert items == [Dir(a, []), Dir(b, [])];
    TwoEntryTree(d, dirPath, "", true, excluded);
    EmptyDirectoryTree(a, ChildPath(dirPath, a), "" + Continuation(true), false, excluded);
    EmptyDirectoryTree(b, ChildPath(dirPath, b), "" + Continuation(true), true, excluded);
    assert EntryLines(d, dirPath, "", true, excluded, 0) == "" + Branch(true) + a + "/\n";
    assert EntryLines(d, dirPath, "", true, excluded, 1) == "" + Branch(true) + b + "/\n";
    assert "" + Branch(true) + a + "/\n" == "└── " + a + "/\n";
    assert "" + Branch(true) + b + "/\n" == "└── " + b + "/\n";
  }

  /**
    A qualifying file listed before an empty directory: the directory is drawn
    first, with the branch of the directory being listed, and the file, now
    the last entry, gets "└── " whatever that flag is.
  */
  lemma DirectoryBeforeFile(name: string, a: string, f: string, text: string,
                            dirPath: string, prefix: string, isLast: bool, excluded: seq<string>)
    requires IsDartFile(f) && !ShouldExclude(ChildPath(dirPath, f), excluded)
    ensures Tree(Dir(name, [File(f, text), Dir(a, [])]), dirPath, prefix, isLast, excluded) ==
              prefix + Branch(isLast) + a + "/\n" + prefix + "└── " + f + "\n"
  {
    var d := Dir(name, [File(f, text), Dir(a, [])]);
    var sub := Dir(a, []);
    var file := File(f, text);
    assert [file, sub][1..] == [sub];
    assert Filter(dirPath, [sub], excluded) == [sub];
    assert Filter(dirPath, d.children, excluded) == [file, sub];
    assert !EntryLe(file, sub);
    assert SortEntries([sub]) == [sub];
    assert Insert(file, [sub]) == [sub, file];
    var items := Visible(d, dirPath, excluded);
    assert items == [sub, file];
    TwoEntryTree(d, dirPath, prefix, isLast, excluded);
    EmptyDirectoryTree(a, ChildPath(dirPath, a), prefix + Continuation(isLast), false, excluded);
    assert EntryLines(d, dirPath, prefix, isLast, excluded, 0) == prefix + Branch(isLast) + a + "/\n";
    assert EntryLines(d, dirPath, prefix, isLast, excluded, 1) == prefix + Branch(true) + f + "\n";
  }

  /** A directory whose only entry is a qualifying file draws one line, with "└── ". */
  lemma OnlyFileTree(a: string, f: string, text: string, dirPath: string, prefix: string, isLast: bool, excluded: seq<string>)
    requires IsDartFile(f) && !ShouldExclude(ChildPath(dirPath, f), excluded)
    ensures Tree(Dir(a, [File(f, text)]), dirPath, prefix, isLast, excluded) == prefix + "└── " + f + "\n"
  {
    var d := Dir(a, [File(f, text)]);
    assert Filter(dirPath, d.children, excluded) == d.children;
    assert Visible(d, dirPath, excluded) == d.children;
    TreeUpToOne(d, dirPath, prefix, isLast, excluded);
  }

  /** A directory whose only entry is a directory draws that directory's line, then its tree. */
  lemma OnlyDirectoryTree(name: string, sub: Node, dirPath: string, prefix: string, isLast: bool, excluded: seq<string>)
    requires sub.Dir?
    ensures Tree(Dir(name, [sub]), dirPath, prefix, isLast, excluded) ==
              prefix + Branch(isLast) + sub.name + "/\n" + Tree(sub, ChildPath(dirPath, sub.name), prefix + Continuation(isLast), true, excluded)
  {
    var d := Dir(name, [sub]);
    assert Filter(dirPath, d.children, excluded) == d.children;
    assert Visible(d, dirPath, excluded) == d.children;
    TreeUpToOne(d, dirPath, prefix, isLast, excluded);
  }

  /**
    A file one directory down is drawn under the continuation of its parent
    directory's flag: below the last directory "└── a/" it is indented by four
    spaces.
  */
  lemma NestedFileLine(name: string, a: string, f: string, text: string, dirPath: string, excluded: seq<string>)
    requires IsDartFile(f) && !ShouldExclude(ChildPath(ChildPath(dirPath, a), f), excluded)
    ensures Tree(Dir(name, [Dir(a, [File(f, text)])]), dirPath, "", true, excluded) ==
              "└── " + a + "/\n" + "    └── " + f + "\n"
  {
    OnlyDirectoryTree(name, Dir(a, [File(f, text)]), dirPath, "", true, excluded);
    OnlyFileTree(a, f, text, ChildPath(dirPath, a), "" + Continuation(true), true, excluded);
    assert "" + Branch(true) + a + "/\n" == "└── " + a + "/\n";
    assert "" + Continuation(true) + "└── " + f + "\n" == "    └── " + f + "\n";
  }

  /** The only qualifying file of a directory is written under its path, with its two lines numbered. */
  lemma OneFileSection(name: string, f: string, x: string, y: string, dirPath: string, excluded: seq<string>)
    requires IsDartFile(f) && !ShouldExclude(ChildPath(dirPath, f), excluded)
    requires '\n' !in x && '\n' !in y
    ensures Sections(QualifyingFiles(Dir(name, [File(f, x + "\n" + y)]), dirPath, excluded)) ==
              "\n// ==== " + dirPath + "/" + f + " ====\n\n" + "1: " + x + "\n" + "2: " + y + "\n"
  {
    var file := File(f, x + "\n" + y);
    var d := Dir(name, [file]);
    var written := SourceFile(ChildPath(dirPath, f), x + "\n" + y);
    assert Listing(d) == [file];
    assert EntryFiles(d, dirPath, excluded, 0) == [written];
    assert FilesUpTo(d, dirPath, excluded, 0) == [];
    assert QualifyingFiles(d, dirPath, excluded) == [written];
    assert [written][..0] == [];
    assert Sections([written]) == Section(written);
    TwoLinesNumbered(x, y);
  }
}
