/**
  String primitives the exporter relies on: JavaScript's `split('\n')` and
  `join('\n')`, `String(n)` for a natural number, and `padStart(w, ' ')`.
  Strings are `seq<char>`, sequences of Unicode scalar values; JavaScript's
  UTF-16 code units differ from them only outside the Basic Multilingual
  Plane, and nothing here measures such a character.
*/
module Text {

  /** Number of newline characters in `s`. */
  function Newlines(s: string): nat
  {
    if s == [] then 0 else (if s[0] == '\n' then 1 else 0) + Newlines(s[1..])
  }

  lemma {:induction false} NewlinesAppend(a: string, b: string)
    ensures Newlines(a + b) == Newlines(a) + Newlines(b)
    decreases |a|
  {
    if a == [] {
      assert a + b == b;
    } else {
      assert (a + b)[0] == a[0];
      assert (a + b)[1..] == a[1..] + b;
      NewlinesAppend(a[1..], b);
    }
  }

  lemma {:induction false} NewlinesFree(s: string)
    requires '\n' !in s
    ensures Newlines(s) == 0
    decreases |s|
  {
    if s != [] {
      assert forall c :: c in s[1..] ==> c in s;
      NewlinesFree(s[1..]);
    }
  }

  /** `s.split('\n')`: the pieces between newlines; never empty, "" gives [""]. */
  function Split(s: string): (r: seq<string>)
    ensures |r| >= 1
  {
    if s == [] then [[]]
    else
      var rest := Split(s[1..]);
      if s[0] == '\n' then [[]] + rest
      else [[s[0]] + rest[0]] + rest[1..]
  }

  /** There is one more line than there are newlines. */
  lemma {:induction false} SplitLength(s: string)
    ensures |Split(s)| == Newlines(s) + 1
    decreases |s|
  {
    if s != [] {
      SplitLength(s[1..]);
    }
  }

  /** No line holds a newline. */
  lemma {:induction false} SplitLinesFree(s: string)
    ensures forall i :: 0 <= i < |Split(s)| ==> '\n' !in Split(s)[i]
    decreases |s|
  {
    if s != [] {
      SplitLinesFree(s[1..]);
      var rest := Split(s[1..]);
      if s[0] != '\n' {
        assert '\n' !in [s[0]] + rest[0];
        assert forall i :: 1 <= i < |rest| ==> rest[1..][i - 1] == rest[i];
      } else {
        assert forall i :: 0 <= i < |rest| ==> ([[]] + rest)[i + 1] == rest[i];
      }
    }
  }

  /** `lines.join('\n')`. */
  function Join(lines: seq<string>): string
  {
    if lines == [] then []
    else if |lines| == 1 then lines[0]
    else lines[0] + "\n" + Join(lines[1..])
  }

  /** Splitting after a newline-free piece glues that piece onto the first line. */
  lemma {:induction false} SplitPrepend(x: string, s: string)
    requires '\n' !in x
    ensures Split(x + s) == [x + Split(s)[0]] + Split(s)[1..]
    decreases |x|
  {
    if x == [] {
      assert x + s == s;
      assert x + Split(s)[0] == Split(s)[0];
      assert [Split(s)[0]] + Split(s)[1..] == Split(s);
    } else {
      assert (x + s)[0] == x[0];
      assert (x + s)[1..] == x[1..] + s;
      SplitPrepend(x[1..], s);
      assert [x[0]] + (x[1..] + Split(s)[0]) == x + Split(s)[0];
    }
  }

  /** Splitting is the inverse of joining lines that hold no newline. */
  lemma {:induction false} SplitJoin(lines: seq<string>)
    requires |lines| >= 1
    requires forall i :: 0 <= i < |lines| ==> '\n' !in lines[i]
    ensures Split(Join(lines)) == lines
    decreases |lines|
  {
    if |lines| == 1 {
      SplitPrepend(lines[0], []);
      assert lines[0] + [] == lines[0];
    } else {
      var tail := Join(lines[1..]);
      SplitJoin(lines[1..]);
      assert lines[0] + "\n" + tail == lines[0] + ("\n" + tail);
      SplitPrepend(lines[0], "\n" + tail);
      assert ("\n" + tail)[1..] == tail;
      assert Split("\n" + tail) == [[]] + Split(tail);
      assert lines[0] + [] == lines[0];
      assert [lines[0]] + lines[1..] == lines;
    }
  }

  /** Joining the pieces of a split restores the text. */
  lemma {:induction false} JoinSplit(s: string)
    ensures Join(Split(s)) == s
    decreases |s|
  {
    if s != [] {
      var rest := Split(s[1..]);
      JoinSplit(s[1..]);
      SplitFirst(s);
      if s[0] == '\n' {
        JoinCons([], rest);
        assert s == "\n" + s[1..];
      } else if |rest| == 1 {
        assert s == [s[0]] + rest[0];
      } else {
        JoinCons([s[0]] + rest[0], rest[1..]);
        JoinCons(rest[0], rest[1..]);
        assert [rest[0]] + rest[1..] == rest;
        assert s == [s[0]] + (rest[0] + "\n" + Join(rest[1..]));
      }
    }
  }

  /** One step of `Split`: the first character either ends the first line or belongs to it. */
  lemma SplitFirst(s: string)
    requires s != []
    ensures Split(s) == if s[0] == '\n' then [[]] + Split(s[1..])
                        else [[s[0]] + Split(s[1..])[0]] + Split(s[1..])[1..]
  {
  }

  /** When `a` ends at a line boundary, the lines of `a + b` are those of `a` followed by those of `b`. */
  lemma {:induction false} SplitConcat(a: string, b: string)
    requires Split(a)[|Split(a)| - 1] == []
    ensures Split(a + b) == Split(a)[..|Split(a)| - 1] + Split(b)
    decreases |a|
  {
    if a == [] {
      assert a + b == b;
    } else {
      var r := Split(a[1..]);
      assert (a + b)[0] == a[0];
      assert (a + b)[1..] == a[1..] + b;
      SplitFirst(a);
      SplitFirst(a + b);
      if a[0] == '\n' {
        SplitConcat(a[1..], b);
        RegroupAfterEmpty(r, Split(b));
      } else {
        assert |r| >= 2;
        SplitConcat(a[1..], b);
        RegroupAfterGlue([a[0]], r, Split(b));
      }
    }
  }

  lemma RegroupAfterEmpty(r: seq<string>, t: seq<string>)
    requires |r| >= 1
    ensures [[]] + (r[..|r| - 1] + t) == ([[]] + r)[..|r|] + t
  {
    assert ([[]] + r)[..|r|] == [[]] + r[..|r| - 1];
  }

  lemma RegroupAfterGlue(x: string, r: seq<string>, t: seq<string>)
    requires |r| >= 2
    ensures [x + (r[..|r| - 1] + t)[0]] + (r[..|r| - 1] + t)[1..] == ([x + r[0]] + r[1..])[..|r| - 1] + t
  {
    assert (r[..|r| - 1] + t)[1..] == r[1..|r| - 1] + t;
    assert ([x + r[0]] + r[1..])[..|r| - 1] == [x + r[0]] + r[1..|r| - 1];
  }

  /** The pieces `ls` of a split end with an empty one, and every other piece with a newline is in `lines`. */
  ghost predicate AllEnded(ls: seq<string>, lines: iset<string>)
    decreases |ls|
  {
    if |ls| <= 1 then ls == [[]] else ls[0] + "\n" in lines && AllEnded(ls[1..], lines)
  }

  /** `AllEnded`, position by position. */
  lemma {:induction false} AllEndedIndex(ls: seq<string>, lines: iset<string>)
    ensures AllEnded(ls, lines) <==>
              |ls| >= 1 && ls[|ls| - 1] == [] && forall i :: 0 <= i < |ls| - 1 ==> ls[i] + "\n" in lines
    decreases |ls|
  {
    if |ls| > 1 {
      AllEndedIndex(ls[1..], lines);
      assert forall i :: 1 <= i < |ls| ==> ls[1..][i - 1] == ls[i];
    }
  }

  /** The splits whose every line is ended by a newline and, with that newline, is one of `lines`. */
  ghost function EndedSplits(lines: iset<string>): iset<seq<string>>
  {
    iset ls | AllEnded(ls, lines)
  }

  /** Every line of `s` is ended by a newline, and with that newline it is one of `lines`. */
  ghost predicate LinesIn(s: string, lines: iset<string>)
  {
    Split(s) in EndedSplits(lines)
  }

  /** `LinesIn`, line by line. */
  lemma LinesInEach(s: string, lines: iset<string>)
    ensures LinesIn(s, lines) <==>
              Split(s)[|Split(s)| - 1] == [] && forall i :: 0 <= i < |Split(s)| - 1 ==> Split(s)[i] + "\n" in lines
  {
    AllEndedIndex(Split(s), lines);
  }

  /** A text whose lines are all in `lines` ends at a line boundary. */
  lemma LinesInEnds(s: string, lines: iset<string>)
    requires LinesIn(s, lines)
    ensures Split(s)[|Split(s)| - 1] == []
  {
    LinesInEach(s, lines);
  }

  /** Line `i` of such a text, with its newline, is in `lines`. */
  lemma LinesInAt(s: string, lines: iset<string>, i: nat)
    requires LinesIn(s, lines) && i < |Split(s)| - 1
    ensures Split(s)[i] + "\n" in lines
  {
    LinesInEach(s, lines);
  }

  lemma LinesInEmpty(lines: iset<string>)
    ensures LinesIn("", lines)
  {
  }

  /** A single line with its newline. */
  lemma LinesInLine(x: string, lines: iset<string>)
    requires '\n' !in x && x + "\n" in lines
    ensures LinesIn(x + "\n", lines)
  {
    SplitPrepend(x, "\n");
    assert ("\n")[1..] == "";
    assert Split("\n") == [[], []];
    assert x + [] == x;
    LinesInEach(x + "\n", lines);
  }

  /** Texts whose lines are all in `lines` concatenate to such a text. */
  lemma LinesInConcat(a: string, b: string, lines: iset<string>)
    requires LinesIn(a, lines) && LinesIn(b, lines)
    ensures LinesIn(a + b, lines)
  {
    LinesInEach(a, lines);
    LinesInEach(b, lines);
    SplitConcat(a, b);
    var pa := Split(a)[..|Split(a)| - 1];
    var lb := Split(b);
    var ls := Split(a + b);
    forall i | 0 <= i < |ls| - 1 ensures ls[i] + "\n" in lines {
      if i < |pa| {
        assert ls[i] == Split(a)[i];
      } else {
        assert ls[i] == lb[i - |pa|];
      }
    }
    LinesInEach(a + b, lines);
  }

  /** A larger set of lines admits every text the smaller one does. */
  lemma LinesInSubset(s: string, lines: iset<string>, more: iset<string>)
    requires LinesIn(s, lines) && lines <= more
    ensures LinesIn(s, more)
  {
    LinesInEach(s, lines);
    LinesInEach(s, more);
  }

  /** The parts written one after another. */
  function Flatten(parts: seq<string>): string
    decreases |parts|
  {
    if parts == [] then "" else Flatten(parts[..|parts| - 1]) + parts[|parts| - 1]
  }

  /** One more part. */
  lemma FlattenSnoc(parts: seq<string>, init: seq<string>, last: string)
    requires parts == init + [last]
    ensures |parts| == |init| + 1
    ensures forall j :: 0 <= j < |init| ==> parts[j] == init[j]
    ensures Flatten(parts) == Flatten(init) + last
  {
    assert parts[..|init|] == init;
  }

  /** The text of the first `k` parts begins the text of all of them. */
  lemma {:induction false} FlattenPrefix(parts: seq<string>, k: nat)
    requires k <= |parts|
    ensures Flatten(parts[..k]) <= Flatten(parts)
    decreases |parts|
  {
    if k == |parts| {
      assert parts[..k] == parts;
    } else {
      var init := parts[..|parts| - 1];
      assert init[..k] == parts[..k];
      FlattenPrefix(init, k);
      var f := Flatten(parts);
      assert f == Flatten(init) + parts[|parts| - 1];
      assert f[..|Flatten(init)|] == Flatten(init);
    }
  }

  lemma TakeSnoc<T>(s: seq<T>, init: seq<T>, last: T, k: nat, front: seq<T>)
    requires s == init + [last] && k <= |init| && init[..k] == front
    ensures s[..k] == front
  {
    assert s[..k] == init[..k];
  }

  lemma TakeAll<T>(s: seq<T>)
    ensures s[..|s|] == s
  {
  }

  /** Text made of parts whose lines are all in `lines` has all its lines in `lines`. */
  lemma {:induction false} FlattenLinesIn(parts: seq<string>, lines: iset<string>)
    requires forall j :: 0 <= j < |parts| ==> LinesIn(parts[j], lines)
    ensures LinesIn(Flatten(parts), lines)
    decreases |parts|
  {
    if parts == [] {
      LinesInEmpty(lines);
    } else {
      var init := parts[..|parts| - 1];
      assert forall j :: 0 <= j < |init| ==> init[j] == parts[j];
      FlattenLinesIn(init, lines);
      LinesInConcat(Flatten(init), parts[|parts| - 1], lines);
    }
  }

  /** One step of `Join`. */
  lemma JoinCons(x: string, rest: seq<string>)
    requires rest != []
    ensures Join([x] + rest) == x + "\n" + Join(rest)
  {
    assert ([x] + rest)[1..] == rest;
  }

  /** The decimal digit character for `d`. */
  function Digit(d: nat): (c: char)
    requires d < 10
    ensures '0' <= c <= '9' && c as int - '0' as int == d
  {
    ('0' as int + d) as char
  }

  /** The number denoted by a string of decimal digits (an empty string denotes 0). */
  function DecimalValue(s: string): nat
  {
    if s == [] then 0
    else
      var last := s[|s| - 1];
      DecimalValue(s[..|s| - 1]) * 10 + (if '0' <= last <= '9' then last as int - '0' as int else 0)
  }

  /** `String(n)`: the shortest decimal numeral for `n`. */
  function Decimal(n: nat): (r: string)
    ensures |r| >= 1
  {
    if n < 10 then [Digit(n)] else Decimal(n / 10) + [Digit(n % 10)]
  }

  /** `Decimal(n)` is made of decimal digits and has no leading zero. */
  lemma {:induction false} DecimalDigits(n: nat)
    ensures forall i :: 0 <= i < |Decimal(n)| ==> '0' <= Decimal(n)[i] <= '9'
    ensures Decimal(n)[0] == '0' ==> n == 0
  {
    if n >= 10 {
      DecimalDigits(n / 10);
      assert Decimal(n)[0] == Decimal(n / 10)[0];
    }
  }

  /** The numeral `Decimal(n)` denotes `n`. */
  lemma {:induction false} DecimalDenotes(n: nat)
    ensures DecimalValue(Decimal(n)) == n
  {
    if n >= 10 {
      var r := Decimal(n);
      assert r[..|r| - 1] == Decimal(n / 10);
      DecimalDenotes(n / 10);
    }
  }

  /** A bigger number never has fewer digits. */
  lemma {:induction false} DecimalLengthMonotone(a: nat, b: nat)
    requires a <= b
    ensures |Decimal(a)| <= |Decimal(b)|
    decreases b
  {
    if a >= 10 {
      DecimalLengthMonotone(a / 10, b / 10);
    }
  }

  /** A run of `k` space characters. */
  function Spaces(k: nat): (r: string)
    ensures |r| == k && forall i :: 0 <= i < k ==> r[i] == ' '
  {
    seq(k, _ => ' ')
  }

  /** `s.padStart(width, ' ')`. */
  function PadStart(s: string, width: nat): string
  {
    if |s| >= width then s else Spaces(width - |s|) + s
  }

  /** The padded string is `width` long, or `s` itself if that is longer; `s` ends it and spaces come before. */
  lemma PadStartShape(s: string, width: nat)
    ensures var r := PadStart(s, width);
            && |r| == (if |s| < width then width else |s|)
            && r[|r| - |s|..] == s
            && forall i :: 0 <= i < |r| - |s| ==> r[i] == ' '
  {
    if |s| < width {
      assert PadStart(s, width)[width - |s|..] == s;
    }
  }

  /** Padding a string that fits the width puts exactly the missing spaces in front. */
  lemma PadStartFits(s: string, width: nat)
    requires |s| <= width
    ensures PadStart(s, width) == Spaces(width - |s|) + s
  {
    if |s| == width {
      assert Spaces(0) + s == s;
    }
  }

  /** The three parts of a concatenation can be cut out again by position. */
  lemma ConcatParts(a: string, b: string, c: string)
    ensures |a + b + c| == |a| + |b| + |c|
    ensures (a + b + c)[..|a|] == a
    ensures (a + b + c)[|a|..|a| + |b|] == b
    ensures (a + b + c)[|a| + |b|..] == c
  {
  }
}
