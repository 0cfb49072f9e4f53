/**
  `processDirectory`: the text of every qualifying file below a directory,
  depth first in listing order, each under a header with its project-relative
  path and with its lines numbered.
*/
module Concatenator {
  import opened Text
  import opened FileTree
  import opened Ordering
  import opened LineNumbers

  /** A qualifying file as it reaches the export: its project-relative path and its text. */
  datatype SourceFile = SourceFile(path: string, text: string)

  /** The header of a section: its own line between blank lines. */
  function Header(path: string): string
  {
    "\n// ==== " + path + " ====\n\n"
  }

  /** The header line, a blank line, the numbered text and a final newline (lines 92-94). */
  function Section(f: SourceFile): string
  {
    Header(f.path) + AddLineNumbers(f.text) + "\n"
  }

  /** The sections of `fs`, one after another. */
  function Sections(fs: seq<SourceFile>): string
  {
    if fs == [] then "" else Sections(fs[..|fs| - 1]) + Section(fs[|fs| - 1])
  }

  /** All entries of `d` in the order `items.sort` leaves them (lines 75-79); nothing is filtered here. */
  function Listing(d: Node): (r: seq<Node>)
    requires d.Dir?
    ensures multiset(r) == multiset(d.children)
    ensures forall x :: x in r <==> x in d.children
  {
    var r := SortEntries(d.children);
    assert forall x :: x in r <==> x in multiset(d.children);
    r
  }

  /** The qualifying files below `d`, in the order `processDirectory(d)` visits them. */
  function QualifyingFiles(d: Node, dirPath: string, excluded: seq<string>): seq<SourceFile>
    requires d.Dir?
    decreases d, 2, 0
  {
    FilesUpTo(d, dirPath, excluded, |Listing(d)|)
  }

  /** The files the first `k` iterations of the loop at lines 81-96 visit. */
  function FilesUpTo(d: Node, dirPath: string, excluded: seq<string>, k: nat): seq<SourceFile>
    requires d.Dir? && k <= |Listing(d)|
    decreases d, 1, k
  {
    if k == 0 then [] else FilesUpTo(d, dirPath, excluded, k - 1) + EntryFiles(d, dirPath, excluded, k - 1)
  }

  /**
    What iteration `k` visits: all files below a directory (line 85), a file
    itself when it is a `.dart` file that is not excluded (line 86), else nothing.
  */
  function EntryFiles(d: Node, dirPath: string, excluded: seq<string>, k: nat): seq<SourceFile>
    requires d.Dir? && k < |Listing(d)|
    decreases d, 0, 0
  {
    var item := Listing(d)[k];
    assert item in d.children;
    var fullPath := ChildPath(dirPath, item.name);
    if item.Dir? then QualifyingFiles(item, fullPath, excluded)
    else if IsDartFile(item.name) && !ShouldExclude(fullPath, excluded) then [SourceFile(fullPath, item.content)]
    else []
  }

  /** Lines 75-79: all entries of `d`, copied into an array and sorted in place. */
  method SortedListing(d: Node) returns (listing: seq<Node>)
    requires d.Dir? && WellFormed(d)
    ensures listing == Listing(d)
  {
    var items := new Node[|d.children|](k requires 0 <= k < |d.children| => d.children[k]);
    assert items[..] == d.children;
    SortInPlace(items);
    SortEntriesSorted(d.children);
    assert NamesIdentify(items[..]) by {
      assert forall x :: x in items[..] ==> x in multiset(d.children);
    }
    SortedPermutationUnique(items[..], SortEntries(d.children));
    listing := items[..];
  }

  /** `processDirectory(dir)` at lines 70-99. */
  method ProcessDirectory(d: Node, dirPath: string, excluded: seq<string>) returns (content: string)
    requires d.Dir? && WellFormed(d)
    ensures content == Sections(QualifyingFiles(d, dirPath, excluded))
    decreases d, 1
  {
    var listing := SortedListing(d);
    content := "";
    var i := 0;
    while i < |listing|
      invariant 0 <= i <= |listing|
      invariant content == Sections(FilesUpTo(d, dirPath, excluded, i))
    {
      var part := ProcessEntry(d, dirPath, excluded, listing, i);
      SectionsAppend(FilesUpTo(d, dirPath, excluded, i), EntryFiles(d, dirPath, excluded, i));
      content := content + part;
      i := i + 1;
    }
  }

  /** One iteration of the loop at lines 81-96. */
  method ProcessEntry(d: Node, dirPath: string, excluded: seq<string>, listing: seq<Node>, k: nat)
    returns (part: string)
    requires d.Dir? && WellFormed(d)
    requires listing == Listing(d) && k < |listing|
    ensures part == Sections(EntryFiles(d, dirPath, excluded, k))
    decreases d, 0
  {
    var item := listing[k];
    assert item in d.children;
    var fullPath := ChildPath(dirPath, item.name);
    if item.Dir? {
      part := ProcessDirectory(item, fullPath, excluded);
    } else if IsDartFile(item.name) && !ShouldExclude(fullPath, excluded) {
      var numberedContent := AddLineNumbers(item.content);
      part := "\n// ==== " + fullPath + " ====\n\n";
      part := part + numberedContent;
      part := part + "\n";
      assert [SourceFile(fullPath, item.content)][..0] == [];
    } else {
      part := "";
    }
  }

  /** The sections of two runs of files, one after the other. */
  lemma {:induction false} SectionsAppend(a: seq<SourceFile>, b: seq<SourceFile>)
    ensures Sections(a + b) == Sections(a) + Sections(b)
    decreases |b|
  {
    if b == [] {
      assert a + b == a;
    } else {
      var b' := b[..|b| - 1];
      var last := b[|b| - 1];
      assert b == b' + [last];
      SectionsAppend(a, b');
      SectionsAppendStep(a, b', last);
    }
  }

  lemma SectionsAppendStep(a: seq<SourceFile>, b: seq<SourceFile>, last: SourceFile)
    requires Sections(a + b) == Sections(a) + Sections(b)
    ensures Sections(a + (b + [last])) == Sections(a) + Sections(b + [last])
  {
    ConcatRegroup(a, b, [last]);
    SectionsSnoc(a + b, last);
    SectionsSnoc(b, last);
    ConcatRegroup(Sections(a), Sections(b), Section(last));
  }

  lemma ConcatRegroup<T>(x: seq<T>, y: seq<T>, z: seq<T>)
    ensures x + (y + z) == (x + y) + z
  {
  }

  lemma SectionsSnoc(fs: seq<SourceFile>, f: SourceFile)
    ensures Sections(fs + [f]) == Sections(fs) + Section(f)
  {
    assert (fs + [f])[..|fs|] == fs;
  }

  /** Nothing is written exactly when there is no file to write. */
  lemma SectionsEmpty(fs: seq<SourceFile>)
    ensures Sections(fs) == "" <==> fs == []
  {
    if fs != [] {
      assert |Section(fs[|fs| - 1])| > 0;
    }
  }

  /**
    A section can be taken apart again: after the header comes the numbered
    text and one newline, and removing the numbers gives back the file's text.
  */
  lemma SectionRecoversText(f: SourceFile)
    ensures Header(f.path) <= Section(f)
    ensures var body := Section(f)[|Header(f.path)|..|Section(f)| - 1];
            Section(f)[|Section(f)| - 1] == '\n' && StripLineNumbers(body) == f.text
  {
    var header := Header(f.path);
    var numbered := AddLineNumbers(f.text);
    assert Section(f) == header + numbered + "\n";
    ConcatParts(header, numbered, "\n");
    RoundTrip(f.text);
  }

  /** `f` is one of the qualifying files below `d`, by its place in the tree and regardless of order. */
  ghost predicate Holds(d: Node, dirPath: string, excluded: seq<string>, f: SourceFile)
    decreases d, 0
  {
    d.Dir? && exists c :: c in d.children && Provides(c, dirPath, excluded, f)
  }

  /** Entry `c` of the directory at `dirPath` is the file `f`, or holds it below. */
  ghost predicate Provides(c: Node, dirPath: string, excluded: seq<string>, f: SourceFile)
    decreases c, 1
  {
    if c.Dir? then Holds(c, ChildPath(dirPath, c.name), excluded, f)
    else
      && IsDartFile(c.name)
      && !ShouldExclude(ChildPath(dirPath, c.name), excluded)
      && f == SourceFile(ChildPath(dirPath, c.name), c.content)
  }

  /** `processDirectory` writes exactly the qualifying files below `d`. */
  lemma {:induction false} QualifyingFilesMembers(d: Node, dirPath: string, excluded: seq<string>)
    requires d.Dir?
    ensures forall f :: f in QualifyingFiles(d, dirPath, excluded) <==> Holds(d, dirPath, excluded, f)
    decreases d, 2, 0
  {
    var listing := Listing(d);
    FilesUpToMembers(d, dirPath, excluded, |listing|);
    assert QualifyingFiles(d, dirPath, excluded) == FilesUpTo(d, dirPath, excluded, |listing|);
    forall f ensures f in QualifyingFiles(d, dirPath, excluded) <==> Holds(d, dirPath, excluded, f) {
      if Holds(d, dirPath, excluded, f) {
        var c :| c in d.children && Provides(c, dirPath, excluded, f);
        assert c in listing;
        var j :| 0 <= j < |listing| && listing[j] == c;
        assert ProvidesAt(d, dirPath, excluded, f, j);
      }
      if f in QualifyingFiles(d, dirPath, excluded) {
        var j :| 0 <= j < |listing| && ProvidesAt(d, dirPath, excluded, f, j);
        assert listing[j] in d.children;
      }
    }
  }

  /** Entry `j` of the sorted listing provides `f`. */
  ghost predicate ProvidesAt(d: Node, dirPath: string, excluded: seq<string>, f: SourceFile, j: nat)
    requires d.Dir?
  {
    j < |Listing(d)| && Provides(Listing(d)[j], dirPath, excluded, f)
  }

  lemma {:induction false} FilesUpToMembers(d: Node, dirPath: string, excluded: seq<string>, k: nat)
    requires d.Dir? && k <= |Listing(d)|
    ensures forall f :: f in FilesUpTo(d, dirPath, excluded, k) <==> exists j :: 0 <= j < k && ProvidesAt(d, dirPath, excluded, f, j)
    decreases d, 1, k
  {
    if k > 0 {
      FilesUpToMembers(d, dirPath, excluded, k - 1);
      EntryFilesMembers(d, dirPath, excluded, k - 1);
    }
  }

  lemma {:induction false} EntryFilesMembers(d: Node, dirPath: string, excluded: seq<string>, j: nat)
    requires d.Dir? && j < |Listing(d)|
    ensures forall f :: f in EntryFiles(d, dirPath, excluded, j) <==> ProvidesAt(d, dirPath, excluded, f, j)
    decreases d, 0, 0
  {
    var item := Listing(d)[j];
    assert item in d.children;
    if item.Dir? {
      QualifyingFilesMembers(item, ChildPath(dirPath, item.name), excluded);
    }
  }

  /** A directory below which no file qualifies contributes nothing. */
  lemma NothingToWrite(d: Node, dirPath: string, excluded: seq<string>)
    requires d.Dir?
    ensures Sections(QualifyingFiles(d, dirPath, excluded)) == "" <==> forall f :: !Holds(d, dirPath, excluded, f)
  {
    var fs := QualifyingFiles(d, dirPath, excluded);
    QualifyingFilesMembers(d, dirPath, excluded);
    SectionsEmpty(fs);
    if fs != [] {
      assert fs[0] in fs && Holds(d, dirPath, excluded, fs[0]);
    } else {
      forall f ensures !Holds(d, dirPath, excluded, f) {
        assert f !in fs;
      }
    }
  }
}
