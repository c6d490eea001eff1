/** The Python string built-ins the dubbing script relies on: str.isspace, str.strip,
    str.split with a separator, int() on a string, the "0Nd" format specification and
    file.readlines(). Each is modelled on seq<char> and characterised by its contract. */
module PyText {
  import opened Results

  /** str.isspace() for a single character: the Unicode whitespace Python recognises. */
  predicate IsSpace(c: char) {
    c == ' ' || ('\t' <= c <= '\r') || ('\U{1c}' <= c <= '\U{1f}') ||
    c == '\U{85}' || c == '\U{a0}' || c == '\U{1680}' || ('\U{2000}' <= c <= '\U{200a}') ||
    c == '\U{2028}' || c == '\U{2029}' || c == '\U{202f}' || c == '\U{205f}' || c == '\U{3000}'
  }

  ghost predicate AllSpace(s: string) {
    forall i :: 0 <= i < |s| ==> IsSpace(s[i])
  }

  /** str.lstrip(): drops the leading whitespace. */
  function StripLeft(s: string): (r: string)
    ensures |r| <= |s|
    ensures r == [] || !IsSpace(r[0])
  {
    if s != [] && IsSpace(s[0]) then StripLeft(s[1..]) else s
  }

  /** What lstrip() removes is a prefix of whitespace, and nothing else. */
  lemma {:induction false} StripLeftShape(s: string)
    ensures var r := StripLeft(s); r == s[|s| - |r|..] && AllSpace(s[..|s| - |r|])
  {
    if s != [] && IsSpace(s[0]) {
      StripLeftShape(s[1..]);
      var r := StripLeft(s);
      assert s[1..][|s| - 1 - |r|..] == s[|s| - |r|..];
      forall i | 0 <= i < |s| - |r| ensures IsSpace(s[i]) {
        if i > 0 {
          assert s[i] == s[1..][..|s| - 1 - |r|][i - 1];
        }
      }
    }
  }

  /** str.rstrip(): drops the trailing whitespace. */
  function StripRight(s: string): (r: string)
    ensures |r| <= |s|
    ensures r == [] || !IsSpace(r[|r| - 1])
  {
    if s != [] && IsSpace(s[|s| - 1]) then StripRight(s[..|s| - 1]) else s
  }

  /** What rstrip() removes is a suffix of whitespace, and nothing else. */
  lemma {:induction false} StripRightShape(s: string)
    ensures var r := StripRight(s); r == s[..|r|] && AllSpace(s[|r|..])
  {
    if s != [] && IsSpace(s[|s| - 1]) {
      StripRightShape(s[..|s| - 1]);
      var r := StripRight(s);
      assert s[..|s| - 1][..|r|] == s[..|r|];
      forall i | |r| <= i < |s| ensures IsSpace(s[i]) {
        if i < |s| - 1 {
          assert s[i] == s[..|s| - 1][|r|..][i - |r|];
        }
      }
    }
  }

  /** str.strip(): whitespace removed at both ends, so the result neither starts nor ends
      with whitespace. */
  function Strip(s: string): (r: string)
    ensures r == [] || (!IsSpace(r[0]) && !IsSpace(r[|r| - 1]))
  {
    var t := StripLeft(s);
    StripRightShape(t);
    StripRight(t)
  }

  /** Strip keeps one slice of s and removes only whitespace around it. */
  lemma StripSlice(s: string)
    ensures var r, i := Strip(s), |s| - |StripLeft(s)|;
      0 <= i <= |s| - |r| && r == s[i..i + |r|] && AllSpace(s[..i]) && AllSpace(s[i + |r|..])
  {
    var t := StripLeft(s);
    StripLeftShape(s);
    StripRightShape(t);
    TrimmedSlice(s, t, StripRight(t));
  }

  /** A suffix t of s after whitespace, and a prefix r of t before whitespace. */
  lemma TrimmedSlice(s: string, t: string, r: string)
    requires |t| <= |s| && t == s[|s| - |t|..] && AllSpace(s[..|s| - |t|])
    requires |r| <= |t| && r == t[..|r|] && AllSpace(t[|r|..])
    ensures var i := |s| - |t|;
      0 <= i <= |s| - |r| && r == s[i..i + |r|] && AllSpace(s[..i]) && AllSpace(s[i + |r|..])
  {
    var i := |s| - |t|;
    SliceOfSuffix(s, i, |r|);
  }

  lemma SliceOfSuffix(s: string, i: nat, n: nat)
    requires i + n <= |s|
    ensures s[i..][..n] == s[i..i + n] && s[i..][n..] == s[i + n..]
  {
  }

  /** A line of whitespace only. */
  predicate IsBlank(s: string) {
    s == [] || (IsSpace(s[0]) && IsBlank(s[1..]))
  }

  lemma {:induction false} BlankIsStripLeftEmpty(s: string)
    ensures IsBlank(s) <==> StripLeft(s) == []
  {
    if s != [] && IsSpace(s[0]) {
      BlankIsStripLeftEmpty(s[1..]);
    }
  }

  /** `s.strip() == ''`, the test the parser uses to skip a line, holds exactly on the
      lines of whitespace only. */
  lemma BlankIsStripEmpty(s: string)
    ensures IsBlank(s) <==> Strip(s) == []
  {
    BlankIsStripLeftEmpty(s);
    var t := StripLeft(s);
    StripRightShape(t);
  }

  /** sep.join(parts), the inverse of Split. */
  function Join(parts: seq<string>, sep: char): string {
    if |parts| == 0 then []
    else if |parts| == 1 then parts[0]
    else parts[0] + [sep] + Join(parts[1..], sep)
  }

  /** s.split(sep) for a one-character separator: the pieces between the separators,
      none of which holds the separator, joined back they give s. */
  function Split(s: string, sep: char): (parts: seq<string>)
    ensures |parts| >= 1
    ensures forall k :: 0 <= k < |parts| ==> sep !in parts[k]
    ensures Join(parts, sep) == s
  {
    if s == [] then [[]]
    else
      var rest := Split(s[1..], sep);
      if s[0] == sep then
        assert s == [] + [sep] + Join(rest, sep);
        [[]] + rest
      else
        var parts := [[s[0]] + rest[0]] + rest[1..];
        assert Join(parts, sep) == [s[0]] + Join(rest, sep);
        parts
  }

  /** How many times c occurs in s. */
  function CountOf(s: string, c: char): nat {
    if s == [] then 0 else (if s[0] == c then 1 else 0) + CountOf(s[1..], c)
  }

  /** split(sep) gives one piece more than there are separators. */
  lemma {:induction false} SplitCount(s: string, sep: char)
    ensures |Split(s, sep)| == CountOf(s, sep) + 1
  {
    if s != [] {
      SplitCount(s[1..], sep);
    }
  }

  /** A separator-free prefix followed by a separator splits off as one piece. */
  lemma {:induction false} SplitAround(a: string, sep: char, b: string)
    requires sep !in a
    ensures Split(a + [sep] + b, sep) == [a] + Split(b, sep)
  {
    if a != [] {
      assert (a + [sep] + b)[1..] == a[1..] + [sep] + b;
      SplitAround(a[1..], sep, b);
      assert [a[0]] + a[1..] == a;
    }
  }

  /** A string without the separator is its own single piece. */
  lemma {:induction false} SplitWhole(s: string, sep: char)
    requires sep !in s
    ensures Split(s, sep) == [s]
  {
    if s != [] {
      SplitWhole(s[1..], sep);
      assert [s[0]] + s[1..] == s;
    }
  }

  /** Splitting the join of separator-free pieces gives the pieces back. */
  lemma {:induction false} SplitJoin(parts: seq<string>, sep: char)
    requires |parts| >= 1
    requires forall k :: 0 <= k < |parts| ==> sep !in parts[k]
    ensures Split(Join(parts, sep), sep) == parts
  {
    if |parts| == 1 {
      SplitWhole(parts[0], sep);
    } else {
      SplitJoin(parts[1..], sep);
      SplitAround(parts[0], sep, Join(parts[1..], sep));
      assert [parts[0]] + parts[1..] == parts;
    }
  }

  // ---------------------------------------------------------------------------
  // Integers: int(text) and format(n, "0Nd")

  predicate IsDigit(c: char) {
    '0' <= c <= '9'
  }

  predicate AllDigits(s: string) {
    forall i :: 0 <= i < |s| ==> IsDigit(s[i])
  }

  function DigitChar(d: nat): (c: char)
    requires d < 10
    ensures IsDigit(c)
  {
    ('0' as int + d) as char
  }

  /** The value of a string of decimal digits; leading zeros are allowed. */
  function DigitsValue(s: string): nat
    requires AllDigits(s)
  {
    if s == [] then 0 else DigitsValue(s[..|s| - 1]) * 10 + (s[|s| - 1] as int - '0' as int)
  }

  function Zeros(k: nat): (z: string)
    ensures |z| == k && AllDigits(z)
  {
    seq(k, _ => '0')
  }

  function Pow10(k: nat): (p: nat)
    ensures p >= 1
  {
    if k == 0 then 1 else 10 * Pow10(k - 1)
  }

  /** str(n) for n >= 0: the shortest decimal numeral of n. */
  function Decimal(n: nat): (s: string)
    ensures s != [] && AllDigits(s) && DigitsValue(s) == n
    ensures s[0] == '0' ==> s == "0"
  {
    if n < 10 then [DigitChar(n)]
    else
      var s := Decimal(n / 10) + [DigitChar(n % 10)];
      assert s[..|s| - 1] == Decimal(n / 10);
      s
  }

  /** A numeral below 10^k has at most k digits. */
  lemma {:induction false} DecimalLength(n: nat, k: nat)
    requires 1 <= k && n < Pow10(k)
    ensures |Decimal(n)| <= k
  {
    if n >= 10 {
      assert k >= 2;
      assert n / 10 < Pow10(k - 1);
      DecimalLength(n / 10, k - 1);
    }
  }

  /** Leading zeros do not change the value of a numeral. */
  lemma {:induction false} LeadingZeros(k: nat, s: string)
    requires AllDigits(s)
    ensures AllDigits(Zeros(k) + s) && DigitsValue(Zeros(k) + s) == DigitsValue(s)
  {
    if s == [] {
      assert Zeros(k) + s == Zeros(k);
      if k > 0 {
        assert Zeros(k)[..k - 1] == Zeros(k - 1);
        LeadingZeros(k - 1, []);
        assert Zeros(k - 1) + [] == Zeros(k - 1);
      }
    } else {
      assert (Zeros(k) + s)[..|Zeros(k) + s| - 1] == Zeros(k) + s[..|s| - 1];
      LeadingZeros(k, s[..|s| - 1]);
    }
  }

  /** The unsigned part of int(): one or more ASCII digits. */
  function ParseUnsigned(t: string): Option<int> {
    if t != [] && AllDigits(t) then Some(DigitsValue(t) as int) else None
  }

  /** int(s): surrounding whitespace, an optional sign, then at least one ASCII digit. */
  function ParseInt(s: string): Option<int> {
    var t := Strip(s);
    if t != [] && (t[0] == '-' || t[0] == '+') then
      match ParseUnsigned(t[1..])
      case Some(v) => Some(if t[0] == '-' then -v else v)
      case None => None
    else ParseUnsigned(t)
  }

  /** A character int() can accept somewhere in its argument. */
  predicate IntChar(c: char) {
    IsSpace(c) || IsDigit(c) || c == '-' || c == '+'
  }

  /** Whatever int() accepts is made of whitespace, signs and digits only. */
  lemma ParseIntAlphabet(s: string)
    requires ParseInt(s).Some?
    ensures forall i :: 0 <= i < |s| ==> IntChar(s[i])
  {
    var t := Strip(s);
    forall j | 0 <= j < |t| ensures IntChar(t[j]) {
      if j > 0 {
        assert t[j] == t[1..][j - 1];
      }
    }
    StripSlice(s);
    var a := |s| - |StripLeft(s)|;
    forall i | 0 <= i < |s|
      ensures IntChar(s[i])
    {
      if i < a {
        assert s[i] == s[..a][i];
      } else if i >= a + |t| {
        assert s[i] == s[a + |t|..][i - a - |t|];
      } else {
        assert s[i] == t[i - a];
      }
    }
  }

  /** A string whose first and last characters are not whitespace is its own strip. */
  lemma StripTight(s: string)
    requires s == [] || (!IsSpace(s[0]) && !IsSpace(s[|s| - 1]))
    ensures Strip(s) == s
  {
  }

  /** Stripping a terminated line drops the terminator when the line itself is stripped. */
  lemma StripTerminated(x: string)
    requires Strip(x) == x
    ensures Strip(x + "\n") == x
  {
    var y := x + "\n";
    assert y[..|y| - 1] == x;
    if x == [] {
      assert StripLeft(y) == StripLeft(y[1..]);
    } else {
      assert StripLeft(y) == y;
    }
  }

  /** int() reads a string of digits as its value. */
  lemma ParseDigits(t: string)
    requires t != [] && AllDigits(t)
    ensures ParseInt(t) == Some(DigitsValue(t) as int)
  {
    assert !IsSpace(t[0]) && !IsSpace(t[|t| - 1]);
    StripTight(t);
    assert t[0] != '-' && t[0] != '+';
  }

  /** int() reads a minus sign followed by digits as the negated value. */
  lemma ParseNegatedDigits(t: string)
    requires t != [] && AllDigits(t)
    ensures ParseInt("-" + t) == Some(-(DigitsValue(t) as int))
  {
    var m := "-" + t;
    assert m[1..] == t && m[|m| - 1] == t[|t| - 1];
    assert !IsSpace(m[|m| - 1]);
    StripTight(m);
  }

  /** format(n, "0{width}d"): the decimal numeral of n, zero-padded after its sign to at
      least width characters. */
  function FormatInt(n: int, width: nat): (r: string)
    ensures |r| >= width && r != []
    ensures forall i :: 0 <= i < |r| ==> IsDigit(r[i]) || (i == 0 && r[i] == '-')
    ensures n >= 0 ==> AllDigits(r) && DigitsValue(r) == n
  {
    var m: nat := if n < 0 then -n else n;
    var w := if n < 0 && width > 0 then width - 1 else width;
    var d := Decimal(m);
    var digits := Zeros(if w > |d| then w - |d| else 0) + d;
    LeadingZeros(if w > |d| then w - |d| else 0, d);
    if n < 0 then "-" + digits else digits
  }

  /** int() reads back what format(n, "0{width}d") prints, negative numbers included. */
  lemma FormatIntReads(n: int, width: nat)
    ensures ParseInt(FormatInt(n, width)) == Some(n)
  {
    var m: nat := if n < 0 then -n else n;
    var w := if n < 0 && width > 0 then width - 1 else width;
    var d := Decimal(m);
    var digits := Zeros(if w > |d| then w - |d| else 0) + d;
    LeadingZeros(if w > |d| then w - |d| else 0, d);
    assert FormatInt(n, width) == if n < 0 then "-" + digits else digits;
    if n < 0 {
      ParseNegatedDigits(digits);
    } else {
      ParseDigits(digits);
    }
  }

  /** A value below 10^width is formatted in exactly width characters. */
  lemma FormatIntWidth(n: int, width: nat)
    requires 1 <= width && 0 <= n < Pow10(width)
    ensures |FormatInt(n, width)| == width
  {
    DecimalLength(n, width);
  }

  // ---------------------------------------------------------------------------
  // file.readlines()

  function Concat(lines: seq<string>): string {
    if lines == [] then [] else lines[0] + Concat(lines[1..])
  }

  /** file.readlines() on the file's text, split after every '\n'. */
  function ReadLines(content: string): (lines: seq<string>)
    ensures content != [] ==> lines != []
  {
    if content == [] then []
    else
      var rest := ReadLines(content[1..]);
      if content[0] == '\n' || rest == [] then [[content[0]]] + rest
      else [[content[0]] + rest[0]] + rest[1..]
  }

  /** Every line readlines() yields is non-empty and holds a '\n' at most at its end;
      every line but the last does end in '\n'. */
  ghost predicate WellBroken(lines: seq<string>) {
    && (forall k :: 0 <= k < |lines| ==> lines[k] != [] && '\n' !in lines[k][..|lines[k]| - 1])
    && (forall k :: 0 <= k < |lines| - 1 ==> lines[k][|lines[k]| - 1] == '\n')
  }

  /** What readlines() promises: the lines are well broken and make up the text. */
  lemma {:induction false} ReadLinesShape(content: string)
    ensures Concat(ReadLines(content)) == content
    ensures WellBroken(ReadLines(content))
  {
    if content != [] {
      var c, tail := content[0], content[1..];
      assert content == [c] + tail;
      ReadLinesShape(tail);
      ReadLinesCons(c, tail);
      var rest := ReadLines(tail);
      if c == '\n' || rest == [] {
        NewLine(c, rest);
      } else {
        SameLine(c, rest);
      }
    }
  }

  /** A character that starts a line of its own in front of well-broken lines. */
  lemma NewLine(c: char, rest: seq<string>)
    requires WellBroken(rest) && (c == '\n' || rest == [])
    ensures Concat([[c]] + rest) == [c] + Concat(rest)
    ensures WellBroken([[c]] + rest)
  {
    assert ([[c]] + rest)[1..] == rest;
    WellBrokenCons([c], rest);
  }

  /** A character other than '\n' joined to the first of well-broken lines. */
  lemma SameLine(c: char, rest: seq<string>)
    requires WellBroken(rest) && c != '\n' && rest != []
    ensures Concat([[c] + rest[0]] + rest[1..]) == [c] + Concat(rest)
    ensures WellBroken([[c] + rest[0]] + rest[1..])
  {
    ConcatJoined(c, rest);
    WellBrokenTail(rest);
    FirstLine(c, rest[0]);
    WellBrokenCons([c] + rest[0], rest[1..]);
  }

  lemma ConcatJoined(c: char, rest: seq<string>)
    requires rest != []
    ensures Concat([[c] + rest[0]] + rest[1..]) == [c] + Concat(rest)
  {
    var lines := [[c] + rest[0]] + rest[1..];
    assert lines[1..] == rest[1..];
    assert Concat(lines) == ([c] + rest[0]) + Concat(rest[1..]);
  }

  lemma FirstLine(c: char, line: string)
    requires c != '\n' && line != [] && '\n' !in line[..|line| - 1]
    ensures var first := [c] + line;
      '\n' !in first[..|first| - 1] && first[|first| - 1] == line[|line| - 1]
  {
    var first := [c] + line;
    assert first[..|first| - 1] == [c] + line[..|line| - 1];
  }

  lemma WellBrokenTail(lines: seq<string>)
    requires WellBroken(lines) && lines != []
    ensures WellBroken(lines[1..])
    ensures lines[0] != [] && '\n' !in lines[0][..|lines[0]| - 1]
    ensures |lines| > 1 ==> lines[0][|lines[0]| - 1] == '\n'
  {
    var tail := lines[1..];
    forall k | 0 <= k < |tail| ensures tail[k] == lines[k + 1] {
    }
  }

  lemma WellBrokenCons(first: string, rest: seq<string>)
    requires first != [] && '\n' !in first[..|first| - 1]
    requires rest != [] ==> first[|first| - 1] == '\n'
    requires WellBroken(rest)
    ensures WellBroken([first] + rest)
  {
    var lines := [first] + rest;
    forall k | 1 <= k < |lines|
      ensures lines[k] == rest[k - 1]
    {
    }
  }

  /** readlines() of a text is that of its tail with the first character put in front. */
  lemma ReadLinesCons(c: char, s: string)
    ensures ReadLines([c] + s) ==
      if c == '\n' || ReadLines(s) == [] then [[c]] + ReadLines(s)
      else [[c] + ReadLines(s)[0]] + ReadLines(s)[1..]
  {
    assert ([c] + s)[1..] == s;
  }

  /** A text cut after a line terminator reads as the lines of each part. */
  lemma {:induction false} ReadLinesAppend(a: string, b: string)
    requires a == [] || a[|a| - 1] == '\n'
    ensures ReadLines(a + b) == ReadLines(a) + ReadLines(b)
  {
    if a == [] {
      assert a + b == b;
    } else {
      var a' := a[1..];
      assert a == [a[0]] + a';
      assert a + b == [a[0]] + (a' + b);
      assert a' == [] || a'[|a'| - 1] == '\n';
      ReadLinesAppend(a', b);
      ReadLinesCons(a[0], a');
      ReadLinesCons(a[0], a' + b);
      ConsLines(a[0], ReadLines(a'), ReadLines(b));
    }
  }

  /** Putting a character in front of the lines of a text cut after a terminator. */
  lemma ConsLines(c: char, ra: seq<string>, rb: seq<string>)
    requires c != '\n' ==> ra != []
    ensures c == '\n' ==> [[c]] + (ra + rb) == ([[c]] + ra) + rb
    ensures c != '\n' ==> (ra + rb)[0] == ra[0]
    ensures c != '\n' ==> [[c] + (ra + rb)[0]] + (ra + rb)[1..] == ([[c] + ra[0]] + ra[1..]) + rb
  {
    if c != '\n' {
      assert (ra + rb)[1..] == ra[1..] + rb;
    }
  }

  /** One '\n'-terminated line without other terminators reads as that single line. */
  lemma {:induction false} ReadLinesOne(x: string)
    requires '\n' !in x
    ensures ReadLines(x + "\n") == [x + "\n"]
  {
    if x != [] {
      assert (x + "\n")[1..] == x[1..] + "\n";
      var y := x + "\n";
      ReadLinesOne(x[1..]);
      assert y[0] != '\n';
      assert ReadLines(y) == [[y[0]] + ReadLines(y[1..])[0]] + ReadLines(y[1..])[1..];
      assert [x[0]] + (x[1..] + "\n") == y;
    } else {
      assert x + "\n" == "\n";
      assert ReadLines("\n") == [['\n']] + ReadLines([]);
    }
  }
}
