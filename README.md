# Dart export, modelled in Dafny

`export-dart.js` is a Node.js script that documents a Flutter project's `lib`
directory in one text file, `dart_export.txt`. That file holds two things:

- an ASCII tree of the subdirectories and `.dart` files (`generateDirectoryTree`);
- the text of every `.dart` file, each under a `// ==== path ====` header, with
  its lines numbered and right-aligned (`processDirectory`, `addLineNumbers`).

Five generated files are skipped by exact path (`shouldExclude`). In both
listings directories come before files, and entries of one kind are sorted by
name.

This project models the whole script. The directory is a value: a `Node` tree
holding what `fs.readdirSync` lists and `fs.readFileSync` reads. Each part of
the script has its own module:

- `Text`: `split('\n')`, `join('\n')`, `String(n)` and `padStart`.
- `LineNumbers`: `addLineNumbers`, and its inverse `StripLineNumbers`.
- `FileTree`: the directory datatype, `path.extname`, the exclusion list and
  the entry filter.
- `Ordering`: the comparator and its laws. The in-place sort of an array is
  modelled as an insertion sort. There is also a proof that a sorted permutation
  of a directory listing is unique.
- `TreeRenderer`: `generateDirectoryTree`, as a loop method proved against the
  function `Tree`.
- `Concatenator`: `processDirectory`, as a loop method proved against the
  function `Sections(QualifyingFiles(..))`.
- `Exporter`: lines 101-115, with the three outcomes: written, not found, and
  aborted.
- `Scenarios`: small exports worked out for any names and texts.

A directory line takes its branch, and its entries take their continuation
prefix, from the `isLast` flag of the directory being listed (lines 46 and 49),
not from the directory's own position among its siblings; a file line takes its
branch from its own position (line 53). The model reproduces this, and
`Scenarios.SiblingDirectoriesShareBranch` shows the effect: two empty sibling
directories of a last directory both get `└── `.

## Model

| member | source | states |
|---|---|---|
| Text.SplitLength | export-dart.js:61 | `split('\n')` gives one more line than the text has newlines |
| Text.SplitLinesFree | export-dart.js:61 | no piece of the split holds a newline |
| Text.SplitJoin | export-dart.js:61-67 | splitting undoes joining of lines that hold no newline |
| Text.JoinSplit | export-dart.js:61-67 | joining the pieces of a split restores the text exactly |
| Text.DecimalDigits | export-dart.js:62-65 | `String(n)` is all decimal digits with no leading zero |
| Text.DecimalDenotes | export-dart.js:65 | the numeral `String(n)` denotes `n` |
| Text.DecimalLengthMonotone | export-dart.js:62-65 | a bigger number never has fewer digits, so no line number is wider than the last |
| Text.PadStartShape | export-dart.js:65 | `padStart(w, ' ')` is `w` long (or the string itself if longer), ends with the string and has only spaces before it |
| Text.PadStartFits | export-dart.js:65 | a string that fits the width gets exactly the missing spaces in front |
| LineNumbers.AddLineNumbersNewlines | export-dart.js:60-68 | numbering keeps the number of newlines, so no line is added or lost |
| LineNumbers.AddLineNumbersLines | export-dart.js:60-68 | output line `i` is input line `i` after the number `i + 1`, right-aligned to the width of the line count, and ": " |
| LineNumbers.NumberLinesShape | export-dart.js:62-66 | every mapped line is its padded number, ": " and the original line |
| LineNumbers.NumberedLineShape | export-dart.js:65-66 | line `k` of `n` is `k`'s numeral padded to the width of `n`, then ": ", then the line |
| LineNumbers.NumberFitsWidth | export-dart.js:62-65 | every line number fits the width, and padding adds exactly the missing spaces |
| LineNumbers.LastNumberUnpadded | export-dart.js:62-66 | the last line's number is not padded |
| LineNumbers.NumberedLineHasNoNewline | export-dart.js:65-66 | numbering a line adds no newline |
| LineNumbers.SplitAddLineNumbers | export-dart.js:61-67 | the lines of the output are exactly the numbered lines of the input |
| LineNumbers.AddLineNumbersEmpty | export-dart.js:60-68 | empty text becomes "1: " |
| LineNumbers.RoundTrip | export-dart.js:60-68 | taking `width + 2` characters off every line of the output restores the original text |
| LineNumbers.UnnumberLines | export-dart.js:64-67 | cutting the number and ": " off every numbered line gives back the lines |
| FileTree.LastDotSpec | export-dart.js:30 | finds the last '.' of a name, and -1 means there is none |
| FileTree.DartFileIsSuffix | export-dart.js:30 | `extname === '.dart'` holds iff the name is longer than 5 and ends in ".dart" (the dotfile ".dart" has no extension) |
| FileTree.ExcludeIsExactMatch | export-dart.js:17-20 | a path is excluded iff it equals one of the listed paths |
| FileTree.ExcludedFilesExamples | export-dart.js:9-20 | a listed file is excluded; its directory, a longer path and the same name elsewhere are not |
| FileTree.FilterMembers | export-dart.js:27-31 | the filter keeps exactly the directories and the non-excluded `.dart` files |
| Ordering.CompareNames | export-dart.js:37 | the name comparison is -1, 0 or 1, and 0 exactly for equal names |
| Ordering.CompareNamesFlip | export-dart.js:37 | swapping the names flips the sign |
| Ordering.CompareNamesTransitive | export-dart.js:37 | the name order is transitive |
| Ordering.EntryLeTotalPreorder | export-dart.js:34-38 | the comparator is reflexive, total and transitive |
| Ordering.CompareEntriesAntisymmetric | export-dart.js:34-38 | the comparator is antisymmetric, and two entries tie iff they have the same kind and name |
| Ordering.SortedMeansDirectoriesFirst | export-dart.js:34-38 | sorted iff no file precedes a directory and each kind is in name order |
| Ordering.InsertSorted | export-dart.js:34-38 | inserting into a sorted listing keeps it sorted |
| Ordering.SortEntriesSorted | export-dart.js:34-38 | the reference sort gives a sorted permutation |
| Ordering.SortedPermutationUnique | export-dart.js:34-38 | when names identify entries, any two sorted permutations of a listing are equal |
| Ordering.SortInPlace | export-dart.js:34-38 | the array ends up sorted, with the same multiset of entries |
| Ordering.SinkInto | export-dart.js:34-38 | one pass leaves `a[..i + 1]` sorted and a permutation of what it held, and `a[i + 1..]` unchanged |
| Ordering.SinkAdvance | export-dart.js:34-38 | swapping the moving entry past a predecessor that must follow it keeps the pass's invariant, one place further down |
| Ordering.SinkFinish | export-dart.js:34-38 | where the pass stops, the prefix up to `i` is sorted and holds the entries it began with |
| TreeRenderer.HeadLine | export-dart.js:46-53 | an entry's line is never empty and ends in a newline |
| TreeRenderer.VisibleMembers | export-dart.js:27-38 | listed are exactly the subdirectories and the qualifying files |
| TreeRenderer.SortedEntries | export-dart.js:27-38 | filtered into an array and sorted in place, the listing is `Visible` |
| TreeRenderer.GenerateDirectoryTree | export-dart.js:22-58 | the loop returns `Tree` for the directory, prefix and flag |
| TreeRenderer.RenderEntry | export-dart.js:41-54 | one iteration appends the entry's line, and below a directory its subtree |
| TreeRenderer.TreeUpToExtends | export-dart.js:40-55 | later iterations only append |
| TreeRenderer.TreeListsEntry | export-dart.js:40-55 | every subdirectory and qualifying file has its line in the tree, starting a line, with the branch its sorted position gives it |
| TreeRenderer.HeadLineAt | export-dart.js:40-55 | the line of entry `k` comes right after the lines of the entries before it |
| TreeRenderer.SubtreeAt | export-dart.js:45-51 | right after a directory entry's line comes that directory's tree, drawn with the continuation prefix and the entry's own position as flag |
| TreeRenderer.DrawnLinesInTree | export-dart.js:22-58 | every line drawn for an entry at any depth, with its accumulated prefix, starts a line of the tree |
| TreeRenderer.TreeLinesAreDrawn | export-dart.js:22-58 | conversely, the tree ends at a line boundary and each of its lines is a line drawn for a directory or qualifying file of the filtered, sorted listing at some depth |
| TreeRenderer.TreeLinesDrawn | export-dart.js:22-58 | the tree is made only of drawn lines, each ended by a newline |
| TreeRenderer.EntryLinesDrawn | export-dart.js:45-54 | what one iteration appends is made only of lines drawn for that entry or inside its subtree |
| TreeRenderer.TreeUpToFlatten | export-dart.js:40-55 | the tree so far is what its iterations appended, in order |
| TreeRenderer.EntryDrawnInTree | export-dart.js:45-54 | a line drawn for entry `k`, or inside its subtree, starts a line of the tree |
| TreeRenderer.TreeEndsLine | export-dart.js:22-58 | a tree is empty or ends in a newline |
| TreeRenderer.TreeUpToEndsLine | export-dart.js:40-55 | after any number of iterations the text is empty or ends in a newline |
| TreeRenderer.EntryLinesEndsLine | export-dart.js:45-54 | what one iteration appends is not empty and ends in a newline |
| TreeRenderer.TreeEmpty | export-dart.js:22-58 | a directory renders as "" iff none of its entries is a directory or a qualifying file |
| TreeRenderer.TreeLineCount | export-dart.js:22-58 | the tree has exactly one line per directory and per qualifying file below, in any order |
| TreeRenderer.EntryLinesLineCount | export-dart.js:45-54 | one iteration adds one line, plus the lines of a directory's subtree |
| TreeRenderer.CensusIsVisibleSum | export-dart.js:27-38 | counting over the filtered, sorted listing gives the same total as over the raw listing |
| TreeRenderer.WeightSumPermutation | export-dart.js:34-38 | the count does not depend on the order of the entries |
| Concatenator.Listing | export-dart.js:75-79 | the sorted listing is a permutation of the entries, nothing filtered |
| Concatenator.SortedListing | export-dart.js:75-79 | the array sorted in place gives `Listing` |
| Concatenator.ProcessDirectory | export-dart.js:70-99 | the loop returns the sections of the qualifying files below, depth first in listing order |
| Concatenator.ProcessEntry | export-dart.js:81-96 | one iteration recurses on a directory, writes a section for a qualifying file, and writes nothing otherwise |
| Concatenator.SectionsAppend | export-dart.js:81-96 | the output for two runs of files is the two outputs concatenated |
| Concatenator.SectionsEmpty | export-dart.js:92-94 | the output is empty iff there is no file |
| Concatenator.SectionRecoversText | export-dart.js:92-94 | a section is the header, the numbered text and one newline, and unnumbering gives back the file's text |
| Concatenator.QualifyingFilesMembers | export-dart.js:70-99 | exactly the qualifying files below the directory are written, with their project-relative paths |
| Concatenator.NothingToWrite | export-dart.js:84-96 | a subtree contributes "" iff no file below it qualifies |
| Exporter.Divider | export-dart.js:109 | the divider is 80 '=' characters |
| Exporter.DocumentParts | export-dart.js:109 | the document is the heading, the tree, the fixed separator and the contents, and each can be cut out by position |
| Exporter.DocumentDeterminesParts | export-dart.js:109 | the document determines the tree and the contents, given the length of the tree |
| Exporter.Export | export-dart.js:101-115 | a run writes the document for a `lib` directory, reports the message when `lib` is missing, and aborts when `lib` is a file |
| Exporter.ExportWritesOnlyDirectories | export-dart.js:101-115 | a document is written iff `lib` is a directory, always to `dart_export.txt`, and the message is reported iff `lib` is missing |
| Scenarios.SplitTwo | export-dart.js:61 | a text with one newline splits into its two lines |
| Scenarios.NumberTwo | export-dart.js:64-67 | two lines are numbered "1: " and "2: " |
| Scenarios.TwoLinesNumbered | export-dart.js:60-68 | a two-line file becomes "1: x\n2: y", without padding |
| Scenarios.EmptyDirectoryTree | export-dart.js:22-58 | an empty directory draws nothing |
| Scenarios.TwoEntryTree | export-dart.js:40-55 | the tree of two visible entries is their two parts, in order |
| Scenarios.TwoInOrder | export-dart.js:34-38 | two qualifying entries already in order stay in that order |
| Scenarios.SiblingDirectoriesShareBranch | export-dart.js:46-51 | two empty subdirectories of a last directory both get "└── " |
| Scenarios.NestedFileLine | export-dart.js:46-53 | a file inside the last directory is drawn four spaces in, below "└── a/" |
| Scenarios.DirectoryBeforeFile | export-dart.js:45-54 | a directory is drawn before a file listed ahead of it, with the parent's branch, and the file gets "└── " |
| Scenarios.OneFileSection | export-dart.js:87-94 | the only qualifying file gets its header, a blank line, its numbered lines and a newline |

## Left out

- File system access (`fs.existsSync`, `fs.readdirSync`, `fs.readFileSync`, `fs.writeFileSync`) is replaced by a `Node` value read up front. An `Option` stands for whether `lib` exists, and the written file is the `Written` outcome.
- The console messages (lines 112 and 114): the not-found message is kept as data in `NotFound`. The success message at line 112 is not modelled.
- `process.cwd()` and `path.join`, `path.relative` and `path.normalize` are modelled only for POSIX paths below the project root: a child's path is `dirPath + "/" + name` and `lib`'s relative path is "lib". Windows separators and `..` segments are not modelled.
- `localeCompare` is modelled as lexicographic order on characters. Locale collation (case folding, accents) depends on the runtime and is not modelled.
- `Array.prototype.sort` is modelled as an insertion sort that keeps the engine's promise: sorted and a permutation. Directory entries have unique names (`WellFormed`), so every such sort gives the same listing.
- UTF-8 decoding is not modelled: file text and names are a `seq<char>` of Unicode scalar values; JavaScript's UTF-16 code units differ from it only outside the Basic Multilingual Plane, and no line number, padding width or path test here depends on that difference.
- Symbolic links, special files, permission errors and read failures are not modelled. The single exception is `lib` being a regular file, where `readdirSync` throws: that is modelled as `Aborted`.
- TreeRenderer.TreeLineCount: assumes that no name holds a newline (`NamesOnOneLine`), which file systems allow but real projects do not have.
- TreeRenderer.EntryLinesLineCount: the same `NamesOnOneLine` assumption as TreeRenderer.TreeLineCount, for one iteration.
- TreeRenderer.TreeLinesAreDrawn: the same `NamesOnOneLine` assumption as TreeRenderer.TreeLineCount, without which one name could span several lines of the tree.
- TreeRenderer.TreeLinesDrawn: the same `NamesOnOneLine` assumption, for the whole tree.
- TreeRenderer.EntryLinesDrawn: the same `NamesOnOneLine` assumption, for one iteration.
- Exporter.DocumentDeterminesParts: needs the length of the tree, because a tree could itself contain the separator text.
