/**
  The top level of the export (lines 101-115): when the `lib` directory
  exists, its tree and the numbered contents of its qualifying files are
  combined into one document for `dart_export.txt`.
*/
module Exporter {
  import opened Text
  import opened FileTree
  import opened TreeRenderer
  import opened Concatenator

  datatype Option<T> = None | Some(value: T)

  /** What one run of the script does. */
  datatype Outcome =
    | Written(file: string, document: string)   // the document is written to `file`
    | NotFound(message: string)                 // no `lib`: an error message, nothing written
    | Aborted                                   // `lib` is not a directory: `readdirSync` throws, nothing written

  /** Line 4. */
  const OutputFile: string := "dart_export.txt"

  /** Line 114. */
  const NotFoundMessage: string := "Das lib-Verzeichnis wurde nicht gefunden!"

  /** The project-relative path of the exported directory (line 6). */
  const LibPath: string := "lib"

  const TreeHeading: string := "Verzeichnisstruktur des lib-Ordners:\n\n"

  const ContentsHeading: string := "Dateiinhalte:\n"

  /** `'='.repeat(80)`. */
  function Divider(): (r: string)
    ensures |r| == 80 && forall i :: 0 <= i < 80 ==> r[i] == '='
  {
    seq(80, _ => '=')
  }

  /** What stands between the tree and the file contents. */
  function Separator(): string
  {
    "\n\n" + Divider() + "\n\n" + ContentsHeading
  }

  /** The combined document of line 109. */
  function Document(tree: string, content: string): string
  {
    TreeHeading + tree + Separator() + content
  }

  /** The document is the heading, the tree, the fixed separator and the contents, in this order. */
  lemma DocumentParts(tree: string, content: string)
    ensures var doc := Document(tree, content);
            && |doc| == |TreeHeading| + |tree| + |Separator()| + |content|
            && doc[..|TreeHeading|] == TreeHeading
            && doc[|TreeHeading|..|TreeHeading| + |tree|] == tree
            && doc[|TreeHeading| + |tree|..|doc| - |content|] == Separator()
            && doc[|doc| - |content|..] == content
  {
    var doc := Document(tree, content);
    assert doc == TreeHeading + tree + Separator() + content;
    ConcatParts(TreeHeading, tree, Separator() + content);
    assert (Separator() + content)[..|Separator()|] == Separator();
  }

  /** Two runs that write the same document had the same tree, provided the trees are as long. */
  lemma DocumentDeterminesParts(tree: string, content: string, tree': string, content': string)
    requires |tree| == |tree'|
    requires Document(tree, content) == Document(tree', content')
    ensures tree == tree' && content == content'
  {
    DocumentParts(tree, content);
    DocumentParts(tree', content');
  }

  /**
    What the script does for the directory found at `lib` (or for none): the
    tree with prefix "" and `isLast` true (the defaults at line 22), and the
    contents, both from `lib` itself.
  */
  function ExportResult(lib: Option<Node>, excluded: seq<string>): Outcome
  {
    match lib
    case None => NotFound(NotFoundMessage)
    case Some(File(_, _)) => Aborted
    case Some(d) =>
      Written(OutputFile, Document(Tree(d, LibPath, "", true, excluded),
                                   Sections(QualifyingFiles(d, LibPath, excluded))))
  }

  /** Lines 101-115. */
  method Export(lib: Option<Node>, excluded: seq<string>) returns (outcome: Outcome)
    requires lib.Some? ==> WellFormed(lib.value)
    ensures outcome == ExportResult(lib, excluded)
  {
    if lib.None? {
      outcome := NotFound(NotFoundMessage);
    } else if lib.value.File? {
      outcome := Aborted;
    } else {
      var directoryTree := GenerateDirectoryTree(lib.value, LibPath, "", true, excluded);
      var exportContent := ProcessDirectory(lib.value, LibPath, excluded);
      var combinedContent := Document(directoryTree, exportContent);
      outcome := Written(OutputFile, combinedContent);
    }
  }

  /** A document is written exactly when `lib` is a directory, and always to `dart_export.txt`. */
  lemma ExportWritesOnlyDirectories(lib: Option<Node>, excluded: seq<string>)
    ensures ExportResult(lib, excluded).Written? <==> lib.Some? && lib.value.Dir?
    ensures ExportResult(lib, excluded).Written? ==> ExportResult(lib, excluded).file == OutputFile
    ensures ExportResult(lib, excluded).NotFound? <==> lib.None?
  {
  }
}
