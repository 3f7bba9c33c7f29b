/**
 * The class extractor script: find the first line whose stripped text contains
 * `class <name>` and copy lines from there until the brace depth returns to zero.
 *
 * `Extract` is a reference definition of what gets written, stated in terms of
 * the header line and the closing line; `ScanLines` is the script's single
 * scanning loop, proved to write exactly `Extract`, and `ExtractClass` is the
 * file handling around it.
 */
module ExtractClass {

  // ---------------------------------------------------------------------------
  // Text primitives of Python's `str`
  // ---------------------------------------------------------------------------

  /** The characters for which Python's `str.isspace()` holds, which `strip()` removes. */
  predicate IsSpace(c: char) {
    var n := c as int;
    n == 0x20 || 0x09 <= n <= 0x0D || 0x1C <= n <= 0x1F || n == 0x85 || n == 0xA0 || n == 0x1680
    || 0x2000 <= n <= 0x200A || n == 0x2028 || n == 0x2029 || n == 0x202F || n == 0x205F || n == 0x3000
  }

  /** `s` without its leading white space. */
  function TrimStart(s: string): string {
    if s != [] && IsSpace(s[0]) then TrimStart(s[1..]) else s
  }

  /** `s` without its trailing white space. */
  function TrimEnd(s: string): string {
    if s != [] && IsSpace(s[|s| - 1]) then TrimEnd(s[..|s| - 1]) else s
  }

  /** Python's `s.strip()`. */
  function Strip(s: string): string {
    TrimEnd(TrimStart(s))
  }

  /** `TrimStart` cuts exactly the white space before the first other character. */
  lemma {:induction false} TrimStartIndex(s: string) returns (a: nat)
    ensures a <= |s| && TrimStart(s) == s[a..]
    ensures forall j :: 0 <= j < a ==> IsSpace(s[j])
    ensures TrimStart(s) != [] ==> !IsSpace(TrimStart(s)[0])
  {
    if s != [] && IsSpace(s[0]) {
      var a' := TrimStartIndex(s[1..]);
      a := a' + 1;
      assert s[1..][a'..] == s[a..];
      forall j | 0 <= j < a
        ensures IsSpace(s[j])
      {
        if j > 0 {
          assert s[j] == s[1..][j - 1];
        }
      }
    } else {
      a := 0;
    }
  }

  /** `TrimEnd` cuts exactly the white space after the last other character. */
  lemma {:induction false} TrimEndIndex(s: string) returns (b: nat)
    ensures b <= |s| && TrimEnd(s) == s[..b]
    ensures forall j :: b <= j < |s| ==> IsSpace(s[j])
    ensures TrimEnd(s) != [] ==> !IsSpace(TrimEnd(s)[|TrimEnd(s)| - 1])
  {
    if s != [] && IsSpace(s[|s| - 1]) {
      b := TrimEndIndex(s[..|s| - 1]);
      assert s[..|s| - 1][..b] == s[..b];
      forall j | b <= j < |s|
        ensures IsSpace(s[j])
      {
        if j < |s| - 1 {
          assert s[j] == s[..|s| - 1][j];
        }
      }
    } else {
      b := |s|;
    }
  }

  /** `Strip` removes exactly the leading and trailing white space. */
  lemma StripRemovesOuterSpaces(s: string)
    ensures exists a, b :: StrippedAt(s, Strip(s), a, b)
  {
    var a := TrimStartIndex(s);
    var t := TrimStart(s);
    var b := TrimEndIndex(t);
    assert t[..b] == s[a..a + b];
    forall j | a + b <= j < |s|
      ensures IsSpace(s[j])
    {
      assert s[j] == t[j - a];
    }
    assert StrippedAt(s, Strip(s), a, a + b);
  }

  /**
   * `r` is `s[a..b]`, everything outside it is white space, and `r` neither
   * starts nor ends with white space.
   */
  predicate StrippedAt(s: string, r: string, a: int, b: int) {
    0 <= a <= b <= |s| && r == s[a..b]
    && (forall j :: 0 <= j < a ==> IsSpace(s[j]))
    && (forall j :: b <= j < |s| ==> IsSpace(s[j]))
    && (r != [] ==> !IsSpace(r[0]) && !IsSpace(r[|r| - 1]))
  }

  /** `pattern` occurs in `s` starting at index `i`. */
  predicate OccursAt(s: string, pattern: string, i: int) {
    0 <= i <= |s| - |pattern| && s[i..i + |pattern|] == pattern
  }

  /** Python's substring test `pattern in s`. */
  function Contains(s: string, pattern: string): bool
    decreases |s|
  {
    if |s| < |pattern| then false
    else s[..|pattern|] == pattern || Contains(s[1..], pattern)
  }

  /** `Contains` holds exactly when the pattern occurs somewhere in the string. */
  lemma {:induction false} ContainsIffOccurs(s: string, pattern: string)
    ensures Contains(s, pattern) <==> exists i :: OccursAt(s, pattern, i)
    decreases |s|
  {
    if |s| < |pattern| {
    } else if s[..|pattern|] == pattern {
      assert OccursAt(s, pattern, 0);
    } else {
      assert !OccursAt(s, pattern, 0);
      ContainsIffOccurs(s[1..], pattern);
      forall i | OccursAt(s[1..], pattern, i)
        ensures OccursAt(s, pattern, i + 1)
      {
        assert s[1..][i..i + |pattern|] == s[i + 1..i + 1 + |pattern|];
      }
      forall i | i > 0 && OccursAt(s, pattern, i)
        ensures OccursAt(s[1..], pattern, i - 1)
      {
        assert s[1..][i - 1..i - 1 + |pattern|] == s[i..i + |pattern|];
      }
    }
  }

  // ---------------------------------------------------------------------------
  // The scan's notions: header line, brace depth, closing line
  // ---------------------------------------------------------------------------

  /** The header test: the stripped line contains `class <className>`. */
  predicate IsHeader(line: string, className: string) {
    Contains(Strip(line), "class " + className)
  }

  /** For each input line, whether it passes the header test. */
  function HeaderMarks(lines: seq<string>, className: string): seq<bool> {
    seq(|lines|, i requires 0 <= i < |lines| => IsHeader(lines[i], className))
  }

  /** What one copied line adds to the brace depth: its `{` count minus its `}` count. */
  function Delta(line: string): int {
    multiset(line)['{'] as int - multiset(line)['}'] as int
  }

  /** A header that is a whole class on its own: it balances to zero and opens a brace. */
  predicate ClosesOnHeader(line: string) {
    Delta(line) == 0 && '{' in line
  }

  /** The brace depth reached after copying `block`, starting from zero. */
  function Level(block: seq<string>): int {
    if block == [] then 0 else Delta(block[0]) + Level(block[1..])
  }

  /** The brace depth after copying lines `h` up to (not including) `n`. */
  function Depth(lines: seq<string>, h: nat, n: nat): int
    requires h <= n <= |lines|
  {
    Level(lines[h..n])
  }

  /** Copying one more line moves the depth by exactly that line's delta. */
  lemma {:induction false} LevelAppend(block: seq<string>, line: string)
    ensures Level(block + [line]) == Level(block) + Delta(line)
  {
    if block == [] {
      assert [line][1..] == [];
    } else {
      assert (block + [line])[1..] == block[1..] + [line];
      LevelAppend(block[1..], line);
    }
  }

  /** The depth after line `n` is the depth before it plus that line's delta. */
  lemma DepthStep(lines: seq<string>, h: nat, n: nat)
    requires h <= n < |lines|
    ensures Depth(lines, h, n + 1) == Depth(lines, h, n) + Delta(lines[n])
  {
    assert lines[h..n + 1] == lines[h..n] + [lines[n]];
    LevelAppend(lines[h..n], lines[n]);
  }

  /** The index of the first marked line at or after `from`, or `|marks|` when there is none. */
  function FindHeader(marks: seq<bool>, from: nat): (h: nat)
    requires from <= |marks|
    ensures from <= h <= |marks|
    ensures h < |marks| ==> marks[h]
    ensures forall j :: from <= j < h ==> !marks[j]
    decreases |marks| - from
  {
    if from == |marks| || marks[from] then from else FindHeader(marks, from + 1)
  }

  /**
   * One past the closing line of the class whose header is `lines[h]`, looking at
   * lines `j` onwards: the closing line is the first line after the header that
   * brings the depth to zero or below; without one the block runs to end of input.
   */
  function BlockEnd(lines: seq<string>, h: nat, j: nat): (e: nat)
    requires h < j <= |lines|
    ensures j <= e <= |lines|
    ensures e == j <==> j == |lines|
    ensures forall n :: j < n < e ==> Depth(lines, h, n) > 0
    ensures e < |lines| ==> Depth(lines, h, e) <= 0
    decreases |lines| - j
  {
    if j == |lines| then j
    else if Depth(lines, h, j + 1) <= 0 then j + 1
    else BlockEnd(lines, h, j + 1)
  }

  /**
   * What the scan writes when it starts at line `from` with no class open, the
   * header lines being those marked in `marks`: what it writes from the first
   * header on, if there is one.
   */
  function ExtractFrom(lines: seq<string>, marks: seq<bool>, from: nat): (r: seq<string>)
    requires |marks| == |lines| && from <= |lines|
    ensures |r| <= |lines| - from
    decreases |lines| - from, 1
  {
    ExtractAt(lines, marks, FindHeader(marks, from))
  }

  /**
   * What the scan writes from the header `lines[h]` on (nothing when `h` is past the
   * end): a single-line class and then whatever the scan of the remaining lines
   * writes, or else the block from the header to its closing line.
   */
  function ExtractAt(lines: seq<string>, marks: seq<bool>, h: nat): (r: seq<string>)
    requires |marks| == |lines| && h <= |lines|
    ensures |r| <= |lines| - h
    decreases |lines| - h, 0
  {
    if h == |lines| then []
    else if ClosesOnHeader(lines[h]) then [lines[h]] + ExtractFrom(lines, marks, h + 1)
    else lines[h..BlockEnd(lines, h, h + 1)]
  }

  /** The lines the script writes to the output file for input `lines`. */
  function Extract(lines: seq<string>, className: string): (r: seq<string>)
    ensures |r| <= |lines|
  {
    ExtractFrom(lines, HeaderMarks(lines, className), 0)
  }

  /** The first header of the input, or `|lines|` when there is none. */
  function FirstHeader(lines: seq<string>, className: string): nat {
    FindHeader(HeaderMarks(lines, className), 0)
  }

  /**
   * The scan's state between classes, before line `i`: `written` followed by what
   * the scan writes from line `i` on is everything it writes.
   */
  ghost predicate Outside(lines: seq<string>, marks: seq<bool>, total: seq<string>, i: nat, written: seq<string>) {
    |marks| == |lines| && i <= |lines| && written + ExtractFrom(lines, marks, i) == total
  }

  /**
   * The scan's state inside the class whose header is `lines[h]`, before line `i`:
   * `written` is what came before the header and the lines of the class so far,
   * `level` is the depth, and everything written ends at the class's closing line.
   */
  ghost predicate Inside(lines: seq<string>, total: seq<string>, before: seq<string>, h: nat, i: nat, written: seq<string>, level: int) {
    h < i <= |lines| && written == before + lines[h..i] && level == Depth(lines, h, i)
    && total == before + lines[h..BlockEnd(lines, h, i)]
  }

  /** A line that is not a header, seen with no class open, changes nothing. */
  lemma SkipStep(lines: seq<string>, marks: seq<bool>, total: seq<string>, i: nat, written: seq<string>)
    requires Outside(lines, marks, total, i, written) && i < |lines| && !marks[i]
    ensures Outside(lines, marks, total, i + 1, written)
  {
    assert FindHeader(marks, i) == FindHeader(marks, i + 1);
  }

  /**
   * A header line, seen with no class open, is written; it opens the class unless
   * it closes on itself, and then the scan goes on as before.
   */
  lemma HeaderStep(lines: seq<string>, marks: seq<bool>, total: seq<string>, i: nat, written: seq<string>)
    requires Outside(lines, marks, total, i, written) && i < |lines| && marks[i]
    ensures ClosesOnHeader(lines[i]) ==> Outside(lines, marks, total, i + 1, written + [lines[i]])
    ensures !ClosesOnHeader(lines[i]) ==> Inside(lines, total, written, i, i + 1, written + [lines[i]], Delta(lines[i]))
  {
    assert FindHeader(marks, i) == i;
    assert ExtractFrom(lines, marks, i) == ExtractAt(lines, marks, i);
    DepthStep(lines, i, i);
    assert lines[i..i + 1] == [lines[i]];
  }

  /** A line inside the class is written; the class ends on it exactly when the depth drops to zero or below. */
  lemma BodyStep(lines: seq<string>, total: seq<string>, before: seq<string>, h: nat, i: nat, written: seq<string>, level: int)
    requires Inside(lines, total, before, h, i, written, level) && i < |lines|
    ensures level + Delta(lines[i]) <= 0 ==> total == written + [lines[i]]
    ensures level + Delta(lines[i]) > 0 ==> Inside(lines, total, before, h, i + 1, written + [lines[i]], level + Delta(lines[i]))
  {
    DepthStep(lines, h, i);
    assert lines[h..i + 1] == lines[h..i] + [lines[i]];
  }

  // ---------------------------------------------------------------------------
  // What the script writes
  // ---------------------------------------------------------------------------

  /** `lines[h]` is the first header of the input. */
  predicate IsFirstHeader(lines: seq<string>, className: string, h: nat) {
    h < |lines| && IsHeader(lines[h], className) && forall j :: 0 <= j < h ==> !IsHeader(lines[j], className)
  }

  /** The scan's first header is the input's first line that passes the header test. */
  lemma FirstHeaderFound(lines: seq<string>, className: string, h: nat)
    requires IsFirstHeader(lines, className, h)
    ensures FirstHeader(lines, className) == h
    ensures Extract(lines, className) == ExtractAt(lines, HeaderMarks(lines, className), h)
  {
    var marks := HeaderMarks(lines, className);
    assert marks[h];
    assert forall j :: 0 <= j < h ==> !marks[j];
  }

  /** The output is empty exactly when no line is a header. */
  lemma ExtractEmptyIffNoHeader(lines: seq<string>, className: string)
    ensures Extract(lines, className) == [] <==> forall j :: 0 <= j < |lines| ==> !IsHeader(lines[j], className)
  {
    var marks := HeaderMarks(lines, className);
    var h := FirstHeader(lines, className);
    assert Extract(lines, className) == ExtractAt(lines, marks, h);
    if h < |lines| {
      HeaderWritten(lines, marks, h);
      assert marks[h];
    } else {
      forall j | 0 <= j < |lines|
        ensures !IsHeader(lines[j], className)
      {
        assert !marks[j];
      }
    }
  }

  /** From a header on, the scan writes that header first. */
  lemma HeaderWritten(lines: seq<string>, marks: seq<bool>, h: nat)
    requires |marks| == |lines| && h < |lines|
    ensures ExtractAt(lines, marks, h) != [] && ExtractAt(lines, marks, h)[0] == lines[h]
  {
    if !ClosesOnHeader(lines[h]) {
      assert lines[h..BlockEnd(lines, h, h + 1)][0] == lines[h];
    }
  }

  /**
   * `out` is made of lines of `lines` taken verbatim at the strictly increasing
   * positions `pos`, the first of them `first` and none before it.
   */
  ghost predicate WrittenAt(out: seq<string>, lines: seq<string>, pos: seq<int>, first: int) {
    |pos| == |out|
    && (forall k :: 0 <= k < |pos| ==> 0 <= first <= pos[k] < |lines| && out[k] == lines[pos[k]])
    && (forall k :: 0 < k < |pos| ==> pos[k - 1] < pos[k])
    && (pos != [] ==> pos[0] == first)
  }

  lemma BlockWrittenAt(lines: seq<string>, h: nat, e: nat)
    requires h < e <= |lines|
    ensures WrittenAt(lines[h..e], lines, seq(e - h, k => h + k), h)
  {
  }

  lemma ConsWrittenAt(lines: seq<string>, h: nat, rest: seq<string>, pos: seq<int>, first: nat)
    requires h < first && h < |lines| && WrittenAt(rest, lines, pos, first)
    ensures WrittenAt([lines[h]] + rest, lines, [h] + pos, h)
  {
  }

  lemma {:induction false} ExtractFromInOrder(lines: seq<string>, marks: seq<bool>, from: nat)
    requires |marks| == |lines| && from <= |lines|
    ensures exists pos :: WrittenAt(ExtractFrom(lines, marks, from), lines, pos, FindHeader(marks, from))
    decreases |lines| - from
  {
    var h := FindHeader(marks, from);
    assert ExtractFrom(lines, marks, from) == ExtractAt(lines, marks, h);
    if h == |lines| {
      assert WrittenAt([], lines, [], h);
    } else if ClosesOnHeader(lines[h]) {
      ExtractFromInOrder(lines, marks, h + 1);
      var rest := ExtractFrom(lines, marks, h + 1);
      var pos :| WrittenAt(rest, lines, pos, FindHeader(marks, h + 1));
      ConsWrittenAt(lines, h, rest, pos, FindHeader(marks, h + 1));
    } else {
      BlockWrittenAt(lines, h, BlockEnd(lines, h, h + 1));
    }
  }

  /**
   * Every written line is an input line copied verbatim, in input order, the
   * first of them the first header; no line before that header is written.
   */
  lemma ExtractInOrder(lines: seq<string>, className: string)
    ensures exists pos :: WrittenAt(Extract(lines, className), lines, pos, FirstHeader(lines, className))
  {
    var marks := HeaderMarks(lines, className);
    ExtractFromInOrder(lines, marks, 0);
    var pos :| WrittenAt(ExtractFrom(lines, marks, 0), lines, pos, FindHeader(marks, 0));
    assert WrittenAt(Extract(lines, className), lines, pos, FirstHeader(lines, className));
  }

  /**
   * When the first header does not close on itself, the output is the contiguous
   * run from the header to the first later line that brings the depth to zero or
   * below, and nothing after it.
   */
  lemma StopsAtClosingLine(lines: seq<string>, className: string, h: nat, c: nat)
    requires IsFirstHeader(lines, className, h) && !ClosesOnHeader(lines[h])
    requires h < c < |lines| && Depth(lines, h, c + 1) <= 0
    requires forall n :: h + 1 < n <= c ==> Depth(lines, h, n) > 0
    ensures Extract(lines, className) == lines[h..c + 1]
  {
    FirstHeaderFound(lines, className, h);
  }

  /** When the first header's class never closes, everything from the header to end of input is written. */
  lemma UnterminatedCopiesToEnd(lines: seq<string>, className: string, h: nat)
    requires IsFirstHeader(lines, className, h) && !ClosesOnHeader(lines[h])
    requires forall n :: h + 1 < n <= |lines| ==> Depth(lines, h, n) > 0
    ensures Extract(lines, className) == lines[h..]
  {
    FirstHeaderFound(lines, className, h);
  }

  /** A header without `{` followed by a line without `{` ends the output after those two lines. */
  lemma BraceFreeHeaderStopsAfterTwoLines(lines: seq<string>, className: string, h: nat)
    requires IsFirstHeader(lines, className, h) && h + 1 < |lines|
    requires '{' !in lines[h] && '{' !in lines[h + 1]
    ensures Extract(lines, className) == lines[h..h + 2]
  {
    assert multiset(lines[h])['{'] == 0 && multiset(lines[h + 1])['{'] == 0;
    DepthStep(lines, h, h);
    DepthStep(lines, h, h + 1);
    StopsAtClosingLine(lines, className, h, h + 1);
  }

  lemma {:induction false} FindHeaderShift(marks: seq<bool>, from: nat, j: nat)
    requires from + j <= |marks|
    ensures FindHeader(marks, from + j) == from + FindHeader(marks[from..], j)
    decreases |marks| - from - j
  {
    if from + j < |marks| {
      assert marks[from..][j] == marks[from + j];
      if !marks[from + j] {
        FindHeaderShift(marks, from, j + 1);
      }
    }
  }

  lemma {:induction false} BlockEndShift(lines: seq<string>, from: nat, h: nat, j: nat)
    requires from <= h < j <= |lines|
    ensures BlockEnd(lines, h, j) == from + BlockEnd(lines[from..], h - from, j - from)
    decreases |lines| - j
  {
    if j < |lines| {
      assert lines[from..][h - from..j - from + 1] == lines[h..j + 1];
      if Depth(lines, h, j + 1) > 0 {
        BlockEndShift(lines, from, h, j + 1);
      }
    }
  }

  lemma BlockShift(lines: seq<string>, from: nat, h: nat)
    requires from <= h < |lines|
    ensures lines[from..][h - from..BlockEnd(lines[from..], h - from, h - from + 1)] == lines[h..BlockEnd(lines, h, h + 1)]
  {
    BlockEndShift(lines, from, h, h + 1);
    var e := BlockEnd(lines, h, h + 1);
    assert lines[from..][h - from..e - from] == lines[h..e];
  }

  /** Scanning from line `from + j` writes what scanning the input cut at `from` writes from its line `j`. */
  lemma {:induction false} ExtractFromShift(lines: seq<string>, marks: seq<bool>, from: nat, j: nat)
    requires |marks| == |lines| && from + j <= |lines|
    ensures ExtractFrom(lines, marks, from + j) == ExtractFrom(lines[from..], marks[from..], j)
    decreases |lines| - from - j, 1
  {
    FindHeaderShift(marks, from, j);
    ExtractAtShift(lines, marks, from, FindHeader(marks, from + j));
  }

  lemma {:induction false} ExtractAtShift(lines: seq<string>, marks: seq<bool>, from: nat, h: nat)
    requires |marks| == |lines| && from <= h <= |lines|
    ensures ExtractAt(lines, marks, h) == ExtractAt(lines[from..], marks[from..], h - from)
    decreases |lines| - h, 0
  {
    if h == |lines| {
      assert h - from == |lines[from..]|;
    } else if ClosesOnHeader(lines[h]) {
      assert lines[from..][h - from] == lines[h];
      ExtractFromShift(lines, marks, from, h - from + 1);
    } else {
      assert lines[from..][h - from] == lines[h];
      BlockShift(lines, from, h);
    }
  }

  /** The header marks of a suffix of the input are the suffix of its header marks. */
  lemma HeaderMarksShift(lines: seq<string>, className: string, from: nat)
    requires from <= |lines|
    ensures HeaderMarks(lines[from..], className) == HeaderMarks(lines, className)[from..]
  {
    var m := HeaderMarks(lines, className);
    var m' := HeaderMarks(lines[from..], className);
    forall i | 0 <= i < |m'|
      ensures m'[i] == m[from..][i]
    {
      assert lines[from..][i] == lines[from + i];
    }
  }

  /**
   * A first header that balances to zero and holds a `{` is written on its own
   * and the scan starts over on the lines after it, so a later header opens a
   * new capture.
   */
  lemma SingleLineClassRestarts(lines: seq<string>, className: string, h: nat)
    requires IsFirstHeader(lines, className, h) && ClosesOnHeader(lines[h])
    ensures Extract(lines, className) == [lines[h]] + Extract(lines[h + 1..], className)
  {
    var marks := HeaderMarks(lines, className);
    FirstHeaderFound(lines, className, h);
    ExtractFromShift(lines, marks, h + 1, 0);
    HeaderMarksShift(lines, className, h + 1);
  }

  // ---------------------------------------------------------------------------
  // The script
  // ---------------------------------------------------------------------------

  /** Result of one call of the extraction function. */
  datatype Outcome =
    | InputNotFound(path: string)                            // reported; no output file is opened
    | Extracted(outputPath: string, written: seq<string>)    // outputPath now holds exactly `written`

  /** Result of running the script from the command line. */
  datatype Invocation = UsageShown | Ran(outcome: Outcome)

  /**
   * The extraction function. `files` is the file system: an input path that is
   * not a key of it cannot be opened.
   */
  method ExtractClass(files: map<string, seq<string>>, inputFile: string, outputFile: string, className: string)
    returns (r: Outcome)
    ensures inputFile !in files ==> r == InputNotFound(inputFile)
    ensures inputFile in files ==> r == Extracted(outputFile, Extract(files[inputFile], className))
  {
    if inputFile !in files {
      return InputNotFound(inputFile);
    }
    var written := ScanLines(files[inputFile], className, HeaderMarks(files[inputFile], className));
    r := Extracted(outputFile, written);
  }

  /**
   * The scanning loop over the input lines; `marks` records, for the proof only,
   * which lines pass the header test.
   */
  method ScanLines(lines: seq<string>, className: string, ghost marks: seq<bool>) returns (written: seq<string>)
    requires |marks| == |lines|
    requires forall j {:trigger IsHeader(lines[j], className)} :: 0 <= j < |lines| ==> marks[j] == IsHeader(lines[j], className)
    ensures written == ExtractFrom(lines, marks, 0)
  {
    written := [];
    var inClass := false;
    var braceLevel: int := 0;
    ghost var total := ExtractFrom(lines, marks, 0);  // what the whole scan writes
    ghost var header: nat := 0;                        // the header of the class being copied
    ghost var before: seq<string> := [];               // what was written before that header
    for i := 0 to |lines|
      invariant !inClass ==> braceLevel == 0 && Outside(lines, marks, total, i, written)
      invariant inClass ==> Inside(lines, total, before, header, i, written, braceLevel)
    {
      var line := lines[i];
      assert marks[i] == IsHeader(line, className);
      if !inClass && IsHeader(line, className) {
        HeaderStep(lines, marks, total, i, written);
        inClass := true;
        header, before := i, written;
        written := written + [line];
        braceLevel := braceLevel + multiset(line)['{'];
        braceLevel := braceLevel - multiset(line)['}'];
        if braceLevel == 0 && '{' in line {
          inClass := false;
        }
        continue;
      }
      if inClass {
        BodyStep(lines, total, before, header, i, written, braceLevel);
        written := written + [line];
        braceLevel := braceLevel + multiset(line)['{'];
        braceLevel := braceLevel - multiset(line)['}'];
        if braceLevel <= 0 {
          break;
        }
      } else {
        SkipStep(lines, marks, total, i, written);
      }
    }
    if !inClass {
      assert ExtractFrom(lines, marks, |lines|) == [];
    }
  }

  /** The script's entry point; `argv[0]` is the script's own name. */
  method Script(argv: seq<string>, files: map<string, seq<string>>) returns (r: Invocation)
    ensures |argv| != 4 <==> r == UsageShown
    ensures |argv| == 4 && argv[1] !in files ==> r == Ran(InputNotFound(argv[1]))
    ensures |argv| == 4 && argv[1] in files ==> r == Ran(Extracted(argv[2], Extract(files[argv[1]], argv[3])))
  {
    if |argv| != 4 {
      r := UsageShown;
    } else {
      var outcome := ExtractClass(files, argv[1], argv[2], argv[3]);
      r := Ran(outcome);
    }
  }
}
