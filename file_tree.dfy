/**
  The directory under export, as a value: what `fs.readdirSync` returns for
  each directory and `fs.readFileSync` for each file, read once up front.
  Also the per-entry tests of the exporter: the `.dart` extension check
  (`path.extname`) and the exclusion list (`shouldExclude`).
*/
module FileTree {

  /** A directory entry: a directory with its entries in listing order, or a file with its text. */
  datatype Node = Dir(name: string, children: seq<Node>) | File(name: string, content: string)

  /**
    What every real directory listing satisfies: within one directory, entries
    with the same name are the same entry.
  */
  ghost predicate WellFormed(n: Node)
  {
    match n
    case File(_, _) => true
    case Dir(_, children) =>
      && (forall x, y :: x in children && y in children && x.name == y.name ==> x == y)
      && (forall c :: c in children ==> WellFormed(c))
  }

  /** The project-relative path of entry `name` in the directory at `dirPath` (`path.join`, POSIX separators). */
  function ChildPath(dirPath: string, name: string): string
  {
    dirPath + "/" + name
  }

  /** Index of the last '.' in `s`, or -1 if there is none. */
  function LastDot(s: string): int
  {
    if s == [] then -1
    else if s[|s| - 1] == '.' then |s| - 1
    else LastDot(s[..|s| - 1])
  }

  /** `LastDot` finds the last '.', and -1 means there is none. */
  lemma {:induction false} LastDotSpec(s: string)
    ensures -1 <= LastDot(s) < |s|
    ensures LastDot(s) >= 0 ==> s[LastDot(s)] == '.'
    ensures forall j :: LastDot(s) < j < |s| ==> s[j] != '.'
  {
    if s != [] && s[|s| - 1] != '.' {
      LastDotSpec(s[..|s| - 1]);
    }
  }

  /**
    `path.extname` of a path whose last segment is `base` (a name without '/'):
    from the last '.' to the end, except that a name whose only dot is its first
    character (".dart", ".gitignore"), a name with no dot, and ".." have none.
  */
  function Extname(base: string): string
  {
    var dot := LastDot(base);
    LastDotSpec(base);
    if dot <= 0 || base == ".." then "" else base[dot..]
  }

  /** `path.extname(fullPath) === '.dart'`. */
  predicate IsDartFile(name: string)
  {
    Extname(name) == ".dart"
  }

  /** The extension test is a suffix test, except that the bare dotfile ".dart" has no extension. */
  lemma DartFileIsSuffix(name: string)
    ensures IsDartFile(name) <==> |name| > 5 && name[|name| - 5..] == ".dart"
  {
    var dot := LastDot(name);
    LastDotSpec(name);
    if |name| > 5 && name[|name| - 5..] == ".dart" {
      assert name[|name| - 5] == '.';
      assert forall j :: |name| - 5 < j < |name| ==> name[j] == name[|name| - 5..][j - (|name| - 5)];
      assert dot == |name| - 5;
      assert name != "..";
    }
    if IsDartFile(name) {
      assert dot > 0;
      assert |name[dot..]| == 5;
    }
  }

  /** The five generated or auxiliary files the export skips (lines 9-15; `path.normalize` leaves them as they are). */
  const ExcludedFiles: seq<string> := [
    "lib/generated/build_info.dart",
    "lib/build_info.dart",
    "lib/firebase_options.dart",
    "lib/models/event.g.dart",
    ".dart_tool/flutter_build/dart_plugin_registrant.dart"
  ]

  /** `shouldExclude`: the project-relative path is literally one of the excluded paths. */
  predicate ShouldExclude(relativePath: string, excluded: seq<string>)
  {
    relativePath in excluded
  }

  /** `includes` is membership by exact equality. */
  lemma ExcludeIsExactMatch(relativePath: string, excluded: seq<string>)
    ensures ShouldExclude(relativePath, excluded) <==>
              exists i :: 0 <= i < |excluded| && excluded[i] == relativePath
  {
  }

  /**
    With the configured list: a listed file is excluded, but neither the directory
    holding an excluded file, nor a longer path that starts with an excluded one,
    nor the same file one directory up is excluded.
  */
  lemma ExcludedFilesExamples()
    ensures ShouldExclude("lib/generated/build_info.dart", ExcludedFiles)
    ensures !ShouldExclude("lib/generated", ExcludedFiles)
    ensures !ShouldExclude("lib/generated/build_info.dart.bak", ExcludedFiles)
    ensures !ShouldExclude("lib/event.g.dart", ExcludedFiles)
  {
    assert "lib/generated/build_info.dart" == ExcludedFiles[0];
    assert forall i :: 0 <= i < |ExcludedFiles| ==> |ExcludedFiles[i]| != |"lib/generated"|;
    assert forall i :: 0 <= i < |ExcludedFiles| ==> |ExcludedFiles[i]| != |"lib/generated/build_info.dart.bak"|;
    assert forall i :: 0 <= i < |ExcludedFiles| ==> |ExcludedFiles[i]| != |"lib/event.g.dart"|;
  }

  /**
    Whether an entry of the directory at `dirPath` takes part in the export:
    directories always do; a file does when it has the `.dart` extension and
    its project-relative path is not excluded (lines 27-31 and 86).
  */
  predicate Qualifies(dirPath: string, item: Node, excluded: seq<string>)
  {
    item.Dir? || (IsDartFile(item.name) && !ShouldExclude(ChildPath(dirPath, item.name), excluded))
  }

  /** `items.filter(...)` at lines 27-31: the qualifying entries, in listing order. */
  function Filter(dirPath: string, items: seq<Node>, excluded: seq<string>): (r: seq<Node>)
    ensures |r| <= |items|
  {
    if items == [] then []
    else
      var rest := Filter(dirPath, items[1..], excluded);
      if Qualifies(dirPath, items[0], excluded) then [items[0]] + rest else rest
  }

  /** The filter keeps exactly the qualifying entries. */
  lemma {:induction false} FilterMembers(dirPath: string, items: seq<Node>, excluded: seq<string>)
    ensures forall x :: x in Filter(dirPath, items, excluded) <==> x in items && Qualifies(dirPath, x, excluded)
  {
    if items != [] {
      FilterMembers(dirPath, items[1..], excluded);
      assert forall x :: x in items <==> x == items[0] || x in items[1..];
    }
  }
}
