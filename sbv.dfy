/** The SBV subtitle reader and writer of the dubbing script: parse_sbv on the lines of a
    file, write_sbv producing the file's text. */
module Sbv {
  import opened Results
  import opened PyText
  import opened Timestamp

  /** One subtitle record, the dictionary {'start_ms', 'end_ms', 'text'}. */
  datatype Cue = Cue(startMs: int, endMs: int, text: string)

  // ---------------------------------------------------------------------------
  // Reading

  /** One pass of the parser's loop body: the stripped timestamp line is unpacked into a
      start and an end on ',', both are converted, and the stripped next line is the text. */
  function ParseCue(timestampLine: string, textLine: string): Result<Cue> {
    var range := Split(Strip(timestampLine), ',');
    if |range| != 2 then Failure(UnpackMismatch)
    else
      var startMs :- TimestampToMs(range[0]);
      var endMs :- TimestampToMs(range[1]);
      Success(Cue(startMs, endMs, Strip(textLine)))
  }

  /** The records read so far in front of what the rest of the file gives. */
  function Prepend(done: seq<Cue>, r: Result<seq<Cue>>): Result<seq<Cue>> {
    match r
    case Success(rest) => Success(done + rest)
    case Failure(e) => Failure(e)
  }

  /** What parse_sbv returns for the lines of a file: blank lines (those whose strip() is
      empty, BlankIsStripEmpty) are skipped, any other line is a timestamp line whose
      following line is the record's text. */
  function ParseLines(lines: seq<string>): Result<seq<Cue>>
    decreases |lines|
  {
    if lines == [] then Success([])
    else if IsBlank(lines[0]) then ParseLines(lines[1..])
    else if |lines| == 1 then Failure(MissingTextLine)
    else Cons(ParseCue(lines[0], lines[1]), ParseLines(lines[2..]))
  }

  /** A record in front of the records read after it; the first error wins. */
  function Cons(head: Result<Cue>, tail: Result<seq<Cue>>): Result<seq<Cue>> {
    match head
    case Success(c) => Prepend([c], tail)
    case Failure(e) => Failure(e)
  }

  lemma PrependNil(r: Result<seq<Cue>>)
    ensures Prepend([], r) == r
  {
    if r.Success? {
      assert [] + r.value == r.value;
    }
  }

  lemma PrependAssoc(a: seq<Cue>, b: seq<Cue>, r: Result<seq<Cue>>)
    ensures Prepend(a, Prepend(b, r)) == Prepend(a + b, r)
  {
    if r.Success? {
      assert a + (b + r.value) == (a + b) + r.value;
    }
  }

  /** The parse of the lines from a timestamp line on: its record, then the rest. */
  lemma ParseFrom(lines: seq<string>, i: nat)
    requires i + 1 < |lines| && !IsBlank(lines[i])
    ensures ParseLines(lines[i..]) == Cons(ParseCue(lines[i], lines[i + 1]), ParseLines(lines[i + 2..]))
  {
    assert lines[i..][0] == lines[i] && lines[i..][1] == lines[i + 1];
    assert lines[i..][2..] == lines[i + 2..];
  }

  /** parse_sbv: the cursor loop over the lines, appending one record per timestamp line. */
  method ParseSbv(lines: seq<string>) returns (r: Result<seq<Cue>>)
    ensures r == ParseLines(lines)
  {
    var subtitles: seq<Cue> := [];
    var i := 0;
    assert lines[0..] == lines;
    PrependNil(ParseLines(lines));
    while i < |lines|
      invariant 0 <= i <= |lines|
      invariant ParseLines(lines) == Prepend(subtitles, ParseLines(lines[i..]))
    {
      BlankIsStripEmpty(lines[i]);
      if Strip(lines[i]) == [] {
        assert lines[i..][1..] == lines[i + 1..];
        i := i + 1;
        continue;
      }
      if i + 1 >= |lines| {
        assert lines[i..] == [lines[i]];
        return Failure(MissingTextLine);
      }
      ParseFrom(lines, i);
      var timestamp := Strip(lines[i]);
      var text := Strip(lines[i + 1]);
      var range := Split(timestamp, ',');
      if |range| != 2 {
        return Failure(UnpackMismatch);
      }
      var startMs := TimestampToMs(range[0]);
      if startMs.Failure? {
        return Failure(startMs.error);
      }
      var endMs := TimestampToMs(range[1]);
      if endMs.Failure? {
        return Failure(endMs.error);
      }
      var cue := Cue(startMs.value, endMs.value, text);
      assert ParseCue(lines[i], lines[i + 1]) == Success(cue);
      PrependAssoc(subtitles, [cue], ParseLines(lines[i + 2..]));
      subtitles := subtitles + [cue];
      i := i + 2;
    }
    assert lines[i..] == [];
    assert subtitles + [] == subtitles;
    return Success(subtitles);
  }

  /** A file whose first lines parse carries those records in front of the rest's. */
  lemma {:induction false} ParseAppend(pre: seq<string>, suf: seq<string>)
    requires ParseLines(pre).Success?
    ensures ParseLines(pre + suf) == Prepend(ParseLines(pre).value, ParseLines(suf))
    decreases |pre|
  {
    if pre == [] {
      assert pre + suf == suf;
      PrependNil(ParseLines(suf));
    } else if IsBlank(pre[0]) {
      assert (pre + suf)[0] == pre[0];
      DropAppend(pre, suf, 1);
      ParseAppend(pre[1..], suf);
    } else {
      assert |pre| >= 2;
      ParseAppend(pre[2..], suf);
      ParseAppendCue(pre, suf);
    }
  }

  /** The step of ParseAppend over a leading record. */
  lemma ParseAppendCue(pre: seq<string>, suf: seq<string>)
    requires |pre| >= 2 && !IsBlank(pre[0]) && ParseLines(pre).Success?
    requires ParseLines(pre[2..] + suf) == Prepend(ParseLines(pre[2..]).value, ParseLines(suf))
    ensures ParseLines(pre + suf) == Prepend(ParseLines(pre).value, ParseLines(suf))
  {
    var head := ParseCue(pre[0], pre[1]);
    var rest := ParseLines(pre[2..]);
    assert ParseLines(pre) == Cons(head, rest);
    var all := pre + suf;
    DropAppend(pre, suf, 2);
    assert all[0] == pre[0] && all[1] == pre[1];
    assert ParseLines(all) == Cons(head, ParseLines(pre[2..] + suf));
    PrependAssoc([head.value], rest.value, ParseLines(suf));
  }

  lemma DropAppend<T>(a: seq<T>, b: seq<T>, d: nat)
    requires d <= |a|
    ensures (a + b)[d..] == a[d..] + b
  {
  }

  /** A timestamp line that is the last line of the file: lines[i + 1] raises IndexError. */
  lemma TimestampOnLastLine(pre: seq<string>, t: string)
    requires ParseLines(pre).Success? && !IsBlank(t)
    ensures ParseLines(pre + [t]) == Failure(MissingTextLine)
  {
    ParseAppend(pre, [t]);
  }

  /** A record that does not read: the error of its timestamp line ends the parse. */
  lemma BadRecord(pre: seq<string>, t: string, x: string, rest: seq<string>)
    requires ParseLines(pre).Success? && !IsBlank(t) && ParseCue(t, x).Failure?
    ensures ParseLines(pre + [t, x] + rest) == Failure(ParseCue(t, x).error)
  {
    assert pre + [t, x] + rest == pre + ([t, x] + rest);
    ParseAppend(pre, [t, x] + rest);
    assert ([t, x] + rest)[2..] == rest;
  }

  /** A timestamp line that, once stripped, holds no comma or more than one stops the parse
      with the unpacking ValueError of `start_str, end_str = timestamp.split(',')`. */
  lemma RangeNeedsOneComma(pre: seq<string>, t: string, x: string, rest: seq<string>)
    requires ParseLines(pre).Success? && !IsBlank(t) && CountOf(Strip(t), ',') != 1
    ensures ParseLines(pre + [t, x] + rest) == Failure(UnpackMismatch)
  {
    SplitCount(Strip(t), ',');
    BadRecord(pre, t, x, rest);
  }


  // ---------------------------------------------------------------------------
  // The layout the reader accepts

  /** Every position has a line after it. */
  ghost predicate InRange(lines: seq<string>, pos: seq<int>) {
    forall k :: 0 <= k < |pos| ==> 0 <= pos[k] && pos[k] + 1 < |lines|
  }

  lemma InRangeBound(lines: seq<string>, pos: seq<int>)
    requires InRange(lines, pos)
    ensures pos == [] || |lines| >= 2
  {
    if pos != [] {
      assert 0 <= pos[0];
    }
  }

  /** Line j is neither a timestamp line at one of the positions nor the line after one. */
  ghost predicate Uncovered(pos: seq<int>, j: int) {
    forall k :: 0 <= k < |pos| ==> pos[k] != j && pos[k] + 1 != j
  }

  /** The lines at the positions are not blank. */
  ghost predicate Marked(lines: seq<string>, pos: seq<int>)
    requires InRange(lines, pos)
  {
    forall k :: 0 <= k < |pos| ==> !IsBlank(lines[pos[k]])
  }

  /** Each position comes at least two lines after every earlier one. */
  ghost predicate Spaced(pos: seq<int>) {
    forall k, l :: 0 <= k < l < |pos| ==> pos[k] + 2 <= pos[l]
  }

  /** Every line that is neither at a position nor right after one is blank. */
  ghost predicate BlankElsewhere(lines: seq<string>, pos: seq<int>) {
    forall j :: 0 <= j < |lines| && Uncovered(pos, j) ==> IsBlank(lines[j])
  }

  /** Timestamp lines at the positions pos: each is non-blank and has a line after it, each
      comes at least two lines after the one before, and every other line that is not the
      text line after one is blank. */
  ghost predicate Layout(lines: seq<string>, pos: seq<int>) {
    InRange(lines, pos) && Marked(lines, pos) && Spaced(pos) && BlankElsewhere(lines, pos)
  }

  /** The (timestamp line, text line) pairs at the positions pos. */
  ghost function Pairs(lines: seq<string>, pos: seq<int>): (ps: seq<(string, string)>)
    requires InRange(lines, pos)
    ensures |ps| == |pos|
  {
    seq(|pos|, k requires 0 <= k < |pos| => (lines[pos[k]], lines[pos[k] + 1]))
  }

  /** Reading the pairs one by one in order, stopping at the first that does not read. */
  function ReadAll(pairs: seq<(string, string)>): Result<seq<Cue>> {
    if pairs == [] then Success([])
    else Cons(ParseCue(pairs[0].0, pairs[0].1), ReadAll(pairs[1..]))
  }

  /** Every position moved by d lines. */
  function Shift(pos: seq<int>, d: int): (r: seq<int>)
    ensures |r| == |pos| && forall k :: 0 <= k < |pos| ==> r[k] == pos[k] + d
  {
    seq(|pos|, k requires 0 <= k < |pos| => pos[k] + d)
  }

  /** The positions after dropping the first d lines, all of them at or after line d. */
  lemma DropLines(lines: seq<string>, pos: seq<int>, d: int)
    requires InRange(lines, pos) && Marked(lines, pos) && 0 <= d <= |lines|
    requires forall k :: 0 <= k < |pos| ==> d <= pos[k]
    ensures InRange(lines[d..], Shift(pos, -d)) && Marked(lines[d..], Shift(pos, -d))
    ensures Pairs(lines[d..], Shift(pos, -d)) == Pairs(lines, pos)
  {
    var pos' := Shift(pos, -d);
    forall k | 0 <= k < |pos|
      ensures lines[d..][pos'[k]] == lines[pos[k]] && lines[d..][pos'[k] + 1] == lines[pos[k] + 1]
    {
    }
    assert Pairs(lines[d..], pos') == Pairs(lines, pos) by {
      forall k | 0 <= k < |pos| ensures Pairs(lines[d..], pos')[k] == Pairs(lines, pos)[k] {
      }
    }
  }

  /** Blank lines outside the positions, after dropping the first d lines. */
  lemma DropBlanks(lines: seq<string>, pos: seq<int>, d: int)
    requires 0 <= d <= |lines|
    requires forall j :: d <= j < |lines| && Uncovered(pos, j) ==> IsBlank(lines[j])
    ensures BlankElsewhere(lines[d..], Shift(pos, -d))
  {
    var pos' := Shift(pos, -d);
    forall j | 0 <= j < |lines| - d && Uncovered(pos', j) ensures IsBlank(lines[d..][j]) {
      assert Uncovered(pos, j + d) by {
        forall k | 0 <= k < |pos| ensures pos[k] != j + d && pos[k] + 1 != j + d {
          assert pos'[k] != j && pos'[k] + 1 != j;
        }
      }
      assert lines[d..][j] == lines[j + d];
    }
  }

  /** Dropping a blank first line moves every timestamp line up by one. */
  lemma LayoutDropBlank(lines: seq<string>, pos: seq<int>)
    requires Layout(lines, pos) && lines != [] && IsBlank(lines[0])
    ensures Layout(lines[1..], Shift(pos, -1)) && Pairs(lines[1..], Shift(pos, -1)) == Pairs(lines, pos)
  {
    forall k | 0 <= k < |pos| ensures 1 <= pos[k] {
      assert pos[k] != 0;
    }
    DropLines(lines, pos, 1);
    DropBlanks(lines, pos, 1);
  }

  /** Dropping the first record's two lines moves every later timestamp line up by two. */
  lemma LayoutDropCue(lines: seq<string>, pos: seq<int>)
    requires Layout(lines, pos) && |pos| > 0 && pos[0] == 0
    ensures Layout(lines[2..], Shift(pos[1..], -2))
    ensures Pairs(lines[2..], Shift(pos[1..], -2)) == Pairs(lines, pos)[1..]
  {
    var rest := pos[1..];
    TailPositions(lines, pos);
    PairsTail(lines, pos);
    DropLines(lines, rest, 2);
    ShiftSpaced(rest, -2);
    BlanksTail(lines, pos);
    DropBlanks(lines, rest, 2);
  }

  /** The positions after the first, which is 0, all lie at 2 or beyond. */
  lemma TailPositions(lines: seq<string>, pos: seq<int>)
    requires Layout(lines, pos) && |pos| > 0 && pos[0] == 0
    ensures InRange(lines, pos[1..]) && Marked(lines, pos[1..]) && Spaced(pos[1..])
    ensures forall k :: 0 <= k < |pos[1..]| ==> 2 <= pos[1..][k]
  {
    var rest := pos[1..];
    forall k | 0 <= k < |rest| ensures rest[k] == pos[k + 1] && 2 <= rest[k] {
      assert pos[0] + 2 <= pos[k + 1];
    }
  }

  lemma PairsTail(lines: seq<string>, pos: seq<int>)
    requires InRange(lines, pos) && pos != []
    ensures InRange(lines, pos[1..]) && Pairs(lines, pos[1..]) == Pairs(lines, pos)[1..]
  {
    var rest := pos[1..];
    assert InRange(lines, rest) by {
      forall k | 0 <= k < |rest| ensures rest[k] == pos[k + 1] {
      }
    }
    forall k | 0 <= k < |rest| ensures Pairs(lines, rest)[k] == Pairs(lines, pos)[k + 1] {
    }
  }

  lemma BlanksTail(lines: seq<string>, pos: seq<int>)
    requires BlankElsewhere(lines, pos) && |pos| > 0 && pos[0] == 0
    ensures forall j :: 2 <= j < |lines| && Uncovered(pos[1..], j) ==> IsBlank(lines[j])
  {
    var rest := pos[1..];
    forall j | 2 <= j < |lines| && Uncovered(rest, j) ensures IsBlank(lines[j]) {
      forall k | 0 <= k < |pos| ensures pos[k] != j && pos[k] + 1 != j {
        if k > 0 {
          assert pos[k] == rest[k - 1];
        }
      }
      assert Uncovered(pos, j);
    }
  }

  lemma ShiftSpaced(pos: seq<int>, d: int)
    requires Spaced(pos)
    ensures Spaced(Shift(pos, d))
  {
  }

  /** For lines laid out at pos, parse_sbv reads exactly the pairs at pos, in order, and
      fails with the first pair that does not read. */
  lemma {:induction false} LayoutParses(lines: seq<string>, pos: seq<int>)
    requires Layout(lines, pos)
    ensures ParseLines(lines) == ReadAll(Pairs(lines, pos))
    decreases |lines|
  {
    if lines == [] {
      InRangeBound(lines, pos);
    } else if IsBlank(lines[0]) {
      LayoutDropBlank(lines, pos);
      LayoutParses(lines[1..], Shift(pos, -1));
    } else {
      assert !Uncovered(pos, 0);
      assert |pos| > 0 && pos[0] == 0;
      var ps := Pairs(lines, pos);
      assert ps[0] == (lines[0], lines[1]);
      LayoutDropCue(lines, pos);
      LayoutParses(lines[2..], Shift(pos[1..], -2));
      assert ReadAll(ps) == Cons(ParseCue(lines[0], lines[1]), ReadAll(ps[1..]));
    }
  }

  /** The positions after putting d lines in front. */
  lemma LiftLines(lines: seq<string>, pos: seq<int>, d: nat)
    requires d <= |lines| && InRange(lines[d..], pos) && Marked(lines[d..], pos)
    ensures InRange(lines, Shift(pos, d)) && Marked(lines, Shift(pos, d))
  {
    forall k | 0 <= k < |pos| ensures lines[pos[k] + d] == lines[d..][pos[k]] {
    }
  }

  /** Blank lines outside the positions, after putting d lines in front, apart from the
      first d. */
  lemma LiftBlanks(lines: seq<string>, pos: seq<int>, d: nat)
    requires d <= |lines| && BlankElsewhere(lines[d..], pos)
    ensures forall j :: d <= j < |lines| && Uncovered(Shift(pos, d), j) ==> IsBlank(lines[j])
  {
    var pos' := Shift(pos, d);
    forall j | d <= j < |lines| && Uncovered(pos', j) ensures IsBlank(lines[j]) {
      assert Uncovered(pos, j - d) by {
        forall k | 0 <= k < |pos| ensures pos[k] != j - d && pos[k] + 1 != j - d {
          assert pos'[k] != j && pos'[k] + 1 != j;
        }
      }
      assert lines[j] == lines[d..][j - d];
    }
  }

  /** A blank first line in front of a layout: every timestamp line moves down by one. */
  lemma LayoutLiftBlank(lines: seq<string>, pos: seq<int>)
    requires lines != [] && IsBlank(lines[0]) && Layout(lines[1..], pos)
    ensures Layout(lines, Shift(pos, 1))
  {
    LiftLines(lines, pos, 1);
    LiftBlanks(lines, pos, 1);
  }

  /** A record's two lines in front of a layout: every timestamp line moves down by two. */
  lemma LayoutLiftCue(lines: seq<string>, pos: seq<int>)
    requires |lines| >= 2 && !IsBlank(lines[0]) && Layout(lines[2..], pos)
    ensures Layout(lines, [0] + Shift(pos, 2))
  {
    LiftLines(lines, pos, 2);
    LiftBlanks(lines, pos, 2);
    LiftCueMarked(lines, Shift(pos, 2));
    LiftCueSpaced(Shift(pos, 2));
    LiftCueBlanks(lines, Shift(pos, 2));
  }

  lemma LiftCueMarked(lines: seq<string>, shifted: seq<int>)
    requires |lines| >= 2 && !IsBlank(lines[0])
    requires InRange(lines, shifted) && Marked(lines, shifted)
    ensures InRange(lines, [0] + shifted) && Marked(lines, [0] + shifted)
  {
    var all := [0] + shifted;
    forall k | 0 < k < |all| ensures all[k] == shifted[k - 1] {
    }
  }

  lemma LiftCueSpaced(shifted: seq<int>)
    requires Spaced(shifted) && forall k :: 0 <= k < |shifted| ==> 2 <= shifted[k]
    ensures Spaced([0] + shifted)
  {
    var all := [0] + shifted;
    forall k, l | 0 <= k < l < |all| ensures all[k] + 2 <= all[l] {
      assert all[l] == shifted[l - 1];
      if k > 0 {
        assert all[k] == shifted[k - 1];
      }
    }
  }

  lemma LiftCueBlanks(lines: seq<string>, shifted: seq<int>)
    requires forall j :: 2 <= j < |lines| && Uncovered(shifted, j) ==> IsBlank(lines[j])
    ensures BlankElsewhere(lines, [0] + shifted)
  {
    var all := [0] + shifted;
    forall j | 0 <= j < |lines| && Uncovered(all, j) ensures IsBlank(lines[j]) {
      assert all[0] != j && all[0] + 1 != j;
      assert Uncovered(shifted, j) by {
        forall k | 0 <= k < |shifted| ensures shifted[k] != j && shifted[k] + 1 != j {
          assert all[k + 1] == shifted[k];
        }
      }
    }
  }

  /** Whatever the reader accepts is laid out as above. */
  lemma {:induction false} ParsedIsLaidOut(lines: seq<string>)
    requires ParseLines(lines).Success?
    ensures exists pos :: Layout(lines, pos)
    decreases |lines|
  {
    if lines == [] {
      assert Layout(lines, []);
    } else if IsBlank(lines[0]) {
      ParsedIsLaidOut(lines[1..]);
      var pos' :| Layout(lines[1..], pos');
      LayoutLiftBlank(lines, pos');
    } else {
      assert |lines| >= 2;
      ParsedIsLaidOut(lines[2..]);
      var pos' :| Layout(lines[2..], pos');
      LayoutLiftCue(lines, pos');
    }
  }

  /** parse_sbv succeeds with cues exactly when the lines are timestamp lines and text
      lines laid out as above, with the pairs reading as cues. */
  lemma ParseCharacterised(lines: seq<string>, cues: seq<Cue>)
    ensures ParseLines(lines) == Success(cues) <==>
      exists pos :: Layout(lines, pos) && ReadAll(Pairs(lines, pos)) == Success(cues)
  {
    if ParseLines(lines) == Success(cues) {
      ParsedIsLaidOut(lines);
      var pos :| Layout(lines, pos);
      LayoutParses(lines, pos);
    }
    if exists pos :: Layout(lines, pos) && ReadAll(Pairs(lines, pos)) == Success(cues) {
      var pos :| Layout(lines, pos) && ReadAll(Pairs(lines, pos)) == Success(cues);
      LayoutParses(lines, pos);
    }
  }

  // ---------------------------------------------------------------------------
  // Writing

  /** The three lines written for one record: "start,end", the text, and an empty line. */
  function EntryOf(startStr: string, endStr: string, text: string): string {
    (startStr + [','] + endStr + "\n") + ((text + "\n") + "\n")
  }

  /** What write_sbv emits for one record. */
  function Entry(c: Cue): string {
    EntryOf(MsToTimestamp(c.startMs), MsToTimestamp(c.endMs), c.text)
  }

  /** The file write_sbv produces: the records' entries in order. It is empty or ends with a
      newline. */
  function RenderSbv(cues: seq<Cue>): (content: string)
    ensures content == [] || content[|content| - 1] == '\n'
  {
    if cues == [] then [] else RenderSbv(cues[..|cues| - 1]) + Entry(cues[|cues| - 1])
  }

  /** write_sbv: one pass over the records, two writes each. The records carry the
      translated text in `text`. */
  method WriteSbv(cues: seq<Cue>) returns (content: string)
    ensures content == RenderSbv(cues)
  {
    content := [];
    for i := 0 to |cues|
      invariant content == RenderSbv(cues[..i])
    {
      assert cues[..i + 1][..i] == cues[..i];
      assert RenderSbv(cues[..i + 1]) == RenderSbv(cues[..i]) + Entry(cues[i]);
      var startStr := MsToTimestamp(cues[i].startMs);
      var endStr := MsToTimestamp(cues[i].endMs);
      EntryWrites(content, startStr, endStr, cues[i].text);
      content := content + (startStr + [','] + endStr + "\n");
      content := content + (cues[i].text + "\n\n");
    }
    assert cues[..|cues|] == cues;
  }

  /** The two writes for a record append its entry. */
  lemma EntryWrites(before: string, a: string, b: string, text: string)
    ensures (before + (a + [','] + b + "\n")) + (text + "\n\n") == before + EntryOf(a, b, text)
  {
    assert text + "\n\n" == (text + "\n") + "\n";
  }

  lemma InitLast<T>(s: seq<T>)
    requires s != []
    ensures s[..|s| - 1] + [s[|s| - 1]] == s
  {
  }

  /** A text that fits on one line, with neither '\n' nor the '\r' that reading in text mode
      turns into a line break, and that strip() leaves as it is. */
  predicate OneLine(s: string) {
    '\n' !in s && '\r' !in s && Strip(s) == s
  }

  /** What ms_to_timestamp promises about its text. */
  predicate Printed(t: string) {
    && t != [] && (forall i :: 0 <= i < |t| ==> TimestampChar(t[i]))
    && (IsDigit(t[0]) || t[0] == '-') && IsDigit(t[|t| - 1])
  }

  /** "start,end" holds no newline, strip() leaves it alone, and ',' splits it back. */
  lemma RangeLine(a: string, b: string)
    requires Printed(a) && Printed(b)
    ensures OneLine(a + [','] + b) && a + [','] + b != []
    ensures Split(a + [','] + b, ',') == [a, b]
  {
    var t := a + [','] + b;
    assert !TimestampChar(',');
    assert t[0] == a[0] && t[|t| - 1] == b[|b| - 1];
    RangeChars(a, b);
    assert '\n' !in t && '\r' !in t;
    StripTight(t);
    SplitAround(a, ',', b);
    SplitWhole(b, ',');
  }

  /** "start,end" is made of ',' and timestamp characters. */
  lemma RangeChars(a: string, b: string)
    requires Printed(a) && Printed(b)
    ensures forall i :: 0 <= i < |a + [','] + b| ==> (a + [','] + b)[i] == ',' || TimestampChar((a + [','] + b)[i])
  {
    var t := a + [','] + b;
    forall i | 0 <= i < |t| ensures t[i] == ',' || TimestampChar(t[i]) {
      if i < |a| {
        assert t[i] == a[i];
      } else if i > |a| {
        assert t[i] == b[i - |a| - 1];
      }
    }
  }

  /** The lines readlines() gives for one entry. */
  lemma EntryLines(a: string, b: string, text: string)
    requires Printed(a) && Printed(b) && OneLine(text)
    ensures ReadLines(EntryOf(a, b, text)) == [a + [','] + b + "\n", text + "\n", "\n"]
  {
    var t := a + [','] + b;
    RangeLine(a, b);
    ReadLinesAppend(t + "\n", (text + "\n") + "\n");
    ReadLinesOne(t);
    ReadLinesAppend(text + "\n", "\n");
    ReadLinesOne(text);
    ReadLinesOne([]);
    assert [] + "\n" == "\n";
  }

  /** The timestamp line and text line of one entry read as the record written. */
  lemma EntryCue(a: string, b: string, text: string, startMs: int, endMs: int)
    requires Printed(a) && Printed(b) && OneLine(text)
    requires TimestampToMs(a) == Success(startMs) && TimestampToMs(b) == Success(endMs)
    ensures !IsBlank(a + [','] + b + "\n")
    ensures ParseCue(a + [','] + b + "\n", text + "\n") == Success(Cue(startMs, endMs, text))
  {
    var t := a + [','] + b;
    RangeLine(a, b);
    StripTerminated(t);
    StripTerminated(text);
    BlankIsStripEmpty(t + "\n");
  }

  /** The lines of one entry read back as the record they were written from. */
  lemma EntryParses(a: string, b: string, text: string, startMs: int, endMs: int)
    requires Printed(a) && Printed(b) && OneLine(text)
    requires TimestampToMs(a) == Success(startMs) && TimestampToMs(b) == Success(endMs)
    ensures ParseLines([a + [','] + b + "\n", text + "\n", "\n"]) == Success([Cue(startMs, endMs, text)])
  {
    var x, y := a + [','] + b + "\n", text + "\n";
    EntryCue(a, b, text, startMs, endMs);
    ParseRecord(x, y, ["\n"]);
    ParseEmptyLine();
    assert [x, y] + ["\n"] == [x, y, "\n"];
    assert [Cue(startMs, endMs, text)] + [] == [Cue(startMs, endMs, text)];
  }

  lemma ParseRecord(x: string, y: string, rest: seq<string>)
    requires !IsBlank(x)
    ensures ParseLines([x, y] + rest) == Cons(ParseCue(x, y), ParseLines(rest))
  {
    assert ([x, y] + rest)[2..] == rest;
  }

  lemma ParseEmptyLine()
    ensures ParseLines(["\n"]) == Success([])
  {
    assert IsBlank("\n");
    assert ["\n"][1..] == [];
  }

  /** One record written and read back. */
  lemma EntryRoundTrip(c: Cue)
    requires OneLine(c.text)
    ensures ParseLines(ReadLines(Entry(c))) == Success([c])
  {
    var a, b := MsToTimestamp(c.startMs), MsToTimestamp(c.endMs);
    TimestampRoundTrip(c.startMs);
    TimestampRoundTrip(c.endMs);
    EntryLines(a, b, c.text);
    EntryParses(a, b, c.text, c.startMs, c.endMs);
  }

  /** Round trip: reading back the file write_sbv produces, through readlines() and
      parse_sbv, gives the records written, as long as no text holds a newline or starts or
      ends with whitespace. */
  lemma {:induction false} WriteThenParse(cues: seq<Cue>)
    requires forall k :: 0 <= k < |cues| ==> OneLine(cues[k].text)
    ensures ParseLines(ReadLines(RenderSbv(cues))) == Success(cues)
  {
    if cues != [] {
      var init, last := cues[..|cues| - 1], cues[|cues| - 1];
      WriteThenParse(init);
      assert RenderSbv(cues) == RenderSbv(init) + Entry(last);
      ReadLinesAppend(RenderSbv(init), Entry(last));
      EntryRoundTrip(last);
      ParseAppend(ReadLines(RenderSbv(init)), ReadLines(Entry(last)));
      InitLast(cues);
    }
  }
}
