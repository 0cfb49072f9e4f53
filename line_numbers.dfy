/**
  `addLineNumbers`: every line of a file's text gets its 1-based number,
  right-aligned to the width of the largest number, followed by ": ".
*/
module LineNumbers {
  import opened Text

  /** `String(lines.length).length` for the lines of `content`. */
  function LineNumberWidth(content: string): nat
  {
    |Decimal(|Split(content)|)|
  }

  /** Line `k` (1-based) of a file whose numbers are `width` wide. */
  function NumberedLine(k: nat, width: nat, line: string): string
  {
    PadStart(Decimal(k), width) + ": " + line
  }

  /** The `map` step: every line prefixed with its number, the numbers `width` wide. */
  function NumberWith(lines: seq<string>, width: nat): (r: seq<string>)
    ensures |r| == |lines|
  {
    seq(|lines|, i requires 0 <= i < |lines| => NumberedLine(i + 1, width, lines[i]))
  }

  /** The numbered lines, as wide as the number of the last line. */
  function NumberLines(lines: seq<string>): (r: seq<string>)
    ensures |r| == |lines|
  {
    NumberWith(lines, |Decimal(|lines|)|)
  }

  /** `addLineNumbers(content)`. */
  function AddLineNumbers(content: string): string
  {
    Join(NumberLines(Split(content)))
  }

  /** Numbering adds no line and removes none. */
  lemma AddLineNumbersNewlines(content: string)
    ensures Newlines(AddLineNumbers(content)) == Newlines(content)
  {
    SplitAddLineNumbers(content);
    SplitLength(AddLineNumbers(content));
    SplitLength(content);
  }

  lemma NumberedLinesHaveNoNewline(lines: seq<string>)
    requires forall i :: 0 <= i < |lines| ==> '\n' !in lines[i]
    ensures forall i :: 0 <= i < |lines| ==> '\n' !in NumberLines(lines)[i]
  {
    forall i | 0 <= i < |lines|
      ensures '\n' !in NumberLines(lines)[i]
    {
      NumberedLineHasNoNewline(i + 1, |Decimal(|lines|)|, lines[i]);
    }
  }

  /** A numbered line holds a newline only if the original line did. */
  lemma NumberedLineHasNoNewline(k: nat, width: nat, line: string)
    requires '\n' !in line
    ensures '\n' !in NumberedLine(k, width, line)
  {
    DecimalDigits(k);
    PadStartNoNewline(Decimal(k), width);
  }

  lemma PadStartNoNewline(s: string, width: nat)
    requires forall i :: 0 <= i < |s| ==> '0' <= s[i] <= '9'
    ensures '\n' !in PadStart(s, width)
  {
    PadStartShape(s, width);
  }

  /** Every line number is at most as wide as the number of the last line. */
  lemma NumberFitsWidth(k: nat, n: nat)
    requires 1 <= k <= n
    ensures |Decimal(k)| <= |Decimal(n)|
    ensures PadStart(Decimal(k), |Decimal(n)|) == Spaces(|Decimal(n)| - |Decimal(k)|) + Decimal(k)
  {
    DecimalLengthMonotone(k, n);
    PadStartFits(Decimal(k), |Decimal(n)|);
  }

  /**
    `numbered` is line `k` of a numbered file whose numbers are `width` wide:
    the decimal numeral of `k` right-aligned in `width` columns (spaces in
    front), then ": ", then the original `line` unchanged.
  */
  ghost predicate IsNumberedLine(numbered: string, k: nat, width: nat, line: string)
  {
    && |Decimal(k)| <= width
    && |numbered| == width + 2 + |line|
    && numbered[..width] == Spaces(width - |Decimal(k)|) + Decimal(k)
    && numbered[width..width + 2] == ": "
    && numbered[width + 2..] == line
  }

  lemma NumberedLineShape(k: nat, n: nat, line: string)
    requires 1 <= k <= n
    ensures IsNumberedLine(NumberedLine(k, |Decimal(n)|, line), k, |Decimal(n)|, line)
  {
    NumberFitsWidth(k, n);
    ConcatParts(PadStart(Decimal(k), |Decimal(n)|), ": ", line);
  }

  /**
    The lines of the output correspond one to one to the lines of the input,
    line `i` carrying the number `i + 1`, all numbers right-aligned to the
    width of the largest.
  */
  lemma {:induction false} AddLineNumbersLines(content: string)
    ensures |Split(AddLineNumbers(content))| == |Split(content)|
    ensures forall i :: 0 <= i < |Split(content)| ==>
              IsNumberedLine(Split(AddLineNumbers(content))[i], i + 1, LineNumberWidth(content), Split(content)[i])
  {
    SplitAddLineNumbers(content);
    NumberLinesShape(Split(content));
  }

  /** The last line's number is not padded: that line is its number, ": " and the original line. */
  lemma LastNumberUnpadded(lines: seq<string>)
    requires |lines| >= 1
    ensures NumberLines(lines)[|lines| - 1] == Decimal(|lines|) + ": " + lines[|lines| - 1]
  {
    LastOfNumberWith(lines, |Decimal(|lines|)|);
  }

  lemma LastOfNumberWith(lines: seq<string>, width: nat)
    requires |lines| >= 1 && width == |Decimal(|lines|)|
    ensures NumberWith(lines, width)[|lines| - 1] == Decimal(|lines|) + ": " + lines[|lines| - 1]
  {
    NumberWithAt(lines, width, |lines| - 1);
    NumberedLineUnpadded(|lines|, lines[|lines| - 1]);
  }

  /** A number as wide as the column is not padded. */
  lemma NumberedLineUnpadded(k: nat, line: string)
    ensures NumberedLine(k, |Decimal(k)|, line) == Decimal(k) + ": " + line
  {
    PadStartFits(Decimal(k), |Decimal(k)|);
    assert Spaces(0) + Decimal(k) == Decimal(k);
  }

  /** The lines of the output are the numbered lines of the input. */
  lemma SplitAddLineNumbers(content: string)
    ensures Split(AddLineNumbers(content)) == NumberLines(Split(content))
  {
    SplitLinesFree(content);
    NumberedLinesHaveNoNewline(Split(content));
    SplitJoin(NumberLines(Split(content)));
  }

  lemma NumberLinesShape(lines: seq<string>)
    requires |lines| >= 1
    ensures forall i :: 0 <= i < |lines| ==>
              IsNumberedLine(NumberLines(lines)[i], i + 1, |Decimal(|lines|)|, lines[i])
  {
    forall i | 0 <= i < |lines|
      ensures IsNumberedLine(NumberLines(lines)[i], i + 1, |Decimal(|lines|)|, lines[i])
    {
      NumberedLineShape(i + 1, |lines|, lines[i]);
    }
  }

  /** Empty text is one empty line, numbered 1. */
  lemma AddLineNumbersEmpty()
    ensures AddLineNumbers("") == "1: "
  {
    assert Split("") == [""];
    assert Decimal(1) == ['1'];
    NumberWithAt([""], 1, 0);
    var only := NumberedLine(1, 1, "");
    assert only == ['1'] + ": " + "";
    assert NumberWith([""], 1) == [only];
    assert Join([only]) == only;
    assert ['1'] + ": " + "" == "1: ";
  }

  /** `text` without the first `k` characters, or empty if it is shorter. */
  function DropPrefix(text: string, k: nat): string
  {
    if |text| >= k then text[k..] else []
  }

  /** Every line without its first `k` characters. */
  function DropPrefixes(lines: seq<string>, k: nat): (r: seq<string>)
    ensures |r| == |lines|
  {
    seq(|lines|, i requires 0 <= i < |lines| => DropPrefix(lines[i], k))
  }

  lemma DropPrefixesAt(lines: seq<string>, k: nat, i: nat)
    requires i < |lines|
    ensures DropPrefixes(lines, k)[i] == DropPrefix(lines[i], k)
  {
  }

  /**
    The inverse of `AddLineNumbers`: the width follows from the number of
    lines, and `width + 2` characters come off the front of every line.
  */
  function StripLineNumbers(numbered: string): string
  {
    var lines := Split(numbered);
    Join(DropPrefixes(lines, |Decimal(|lines|)| + 2))
  }

  /** Removing the numbers gives back exactly the original text. */
  lemma RoundTrip(content: string)
    ensures StripLineNumbers(AddLineNumbers(content)) == content
  {
    var lines := Split(content);
    var width := |Decimal(|lines|)|;
    var numbered := NumberWith(lines, width);
    NumberedSplit(content);
    assert |Decimal(|numbered|)| == width;
    StripSplit(AddLineNumbers(content), numbered, width);
    UnnumberLines(lines, width);
    JoinSplit(content);
  }

  /** The lines of the numbered text, with the width written out. */
  lemma NumberedSplit(content: string)
    ensures Split(AddLineNumbers(content)) == NumberWith(Split(content), |Decimal(|Split(content)|)|)
  {
    SplitAddLineNumbers(content);
  }

  /** `StripLineNumbers` works on the lines of its input. */
  lemma StripSplit(numbered: string, lines: seq<string>, width: nat)
    requires Split(numbered) == lines && width == |Decimal(|lines|)|
    ensures StripLineNumbers(numbered) == Join(DropPrefixes(lines, width + 2))
  {
  }

  /** Cutting the number and ": " off every numbered line restores the lines. */
  lemma UnnumberLines(lines: seq<string>, width: nat)
    requires |Decimal(|lines|)| <= width
    ensures DropPrefixes(NumberWith(lines, width), width + 2) == lines
  {
    var stripped := DropPrefixes(NumberWith(lines, width), width + 2);
    forall i | 0 <= i < |lines|
      ensures stripped[i] == lines[i]
    {
      DecimalLengthMonotone(i + 1, |lines|);
      NumberWithAt(lines, width, i);
      DropPrefixesAt(NumberWith(lines, width), width + 2, i);
      UnnumberLine(i + 1, width, lines[i]);
    }
  }

  lemma NumberWithAt(lines: seq<string>, width: nat, i: nat)
    requires i < |lines|
    ensures NumberWith(lines, width)[i] == NumberedLine(i + 1, width, lines[i])
  {
  }

  lemma UnnumberLine(k: nat, width: nat, line: string)
    requires |Decimal(k)| <= width
    ensures DropPrefix(NumberedLine(k, width, line), width + 2) == line
  {
    PadStartFits(Decimal(k), width);
    ConcatParts(PadStart(Decimal(k), width), ": ", line);
  }
}
