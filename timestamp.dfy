/** The two timestamp converters of the dubbing script: `HH:MM:SS.mmm` text to integer
    milliseconds and back. */
module Timestamp {
  import opened Results
  import opened PyText

  /** timestamp_to_ms: split on ':' into hours, minutes and seconds, split the seconds on
      '.' into seconds and milliseconds, and combine the four integers. Either unpacking
      fails on the wrong number of fields and int() fails on a field that is no integer. */
  function TimestampToMs(t: string): Result<int> {
    var hms := Split(t, ':');
    if |hms| != 3 then Failure(UnpackMismatch)
    else FromFields(hms[0], hms[1], Split(hms[2], '.'))
  }

  /** The second unpacking, `s, ms = s.split('.')`, then the four int() calls. */
  function FromFields(h: string, m: string, sms: seq<string>): Result<int> {
    if |sms| != 2 then Failure(UnpackMismatch)
    else Combine(ParseInt(h), ParseInt(m), ParseInt(sms[0]), ParseInt(sms[1]))
  }

  function Combine(h: Option<int>, m: Option<int>, s: Option<int>, ms: Option<int>): Result<int> {
    if h.Some? && m.Some? && s.Some? && ms.Some? then
      Success((h.value * 3600 + m.value * 60 + s.value) * 1000 + ms.value)
    else Failure(InvalidLiteral)
  }

  predicate TimestampChar(c: char) {
    IsDigit(c) || c == '-' || c == ':' || c == '.'
  }

  /** ms_to_timestamp: hours, minutes, seconds and milliseconds by floor division, printed
      as "{h:02d}:{m:02d}:{s:02d}.{ms:03d}". The text holds digits, '-', ':' and '.' only,
      starts with a digit or '-' and ends with a digit. */
  function MsToTimestamp(ms: int): (t: string)
    ensures t != [] && forall i :: 0 <= i < |t| ==> TimestampChar(t[i])
    ensures (IsDigit(t[0]) || t[0] == '-') && IsDigit(t[|t| - 1])
  {
    // Python's // and % round towards negative infinity; with a positive divisor so do
    // Dafny's Euclidean / and %, so negative inputs are converted as the script does.
    var totalSeconds := ms / 1000;
    var h := totalSeconds / 3600;
    var m := (totalSeconds % 3600) / 60;
    var s := totalSeconds % 60;
    var msRemain := ms % 1000;
    FieldsChars(FormatInt(h, 2), FormatInt(m, 2), FormatInt(s, 2), FormatInt(msRemain, 3));
    Fields(FormatInt(h, 2), FormatInt(m, 2), FormatInt(s, 2), FormatInt(msRemain, 3))
  }

  /** The four fields laid out as "H:M:S.R". */
  function Fields(h: string, m: string, s: string, r: string): (t: string)
    ensures |t| == |h| + |m| + |s| + |r| + 3
  {
    h + ([':'] + (m + ([':'] + (s + (['.'] + r)))))
  }

  predicate Token(s: string) {
    s != [] && (IsDigit(s[0]) || s[0] == '-') && forall i :: 0 <= i < |s| ==> TimestampChar(s[i])
  }

  lemma FieldsChars(h: string, m: string, s: string, r: string)
    requires Token(h) && Token(m) && Token(s) && Token(r) && IsDigit(r[|r| - 1])
    ensures var t := Fields(h, m, s, r);
      && t != [] && (forall i :: 0 <= i < |t| ==> TimestampChar(t[i]))
      && (IsDigit(t[0]) || t[0] == '-') && IsDigit(t[|t| - 1])
  {
    var t := Fields(h, m, s, r);
    assert t[0] == h[0] && t[|t| - 1] == r[|r| - 1];
    forall i | 0 <= i < |t| ensures TimestampChar(t[i]) {
      if i < |h| {
        assert t[i] == h[i];
      } else if i == |h| {
      } else if i < |h| + 1 + |m| {
        assert t[i] == m[i - |h| - 1];
      } else if i == |h| + 1 + |m| {
      } else if i < |h| + 2 + |m| + |s| {
        assert t[i] == s[i - |h| - 2 - |m|];
      } else if i == |h| + 2 + |m| + |s| {
      } else {
        assert t[i] == r[i - |h| - 3 - |m| - |s|];
      }
    }
  }

  /** The separators of "H:M:S.R" split it back into its fields. */
  lemma SplitFields(h: string, m: string, s: string, r: string)
    requires ':' !in h && ':' !in m && ':' !in s && ':' !in r && '.' !in s && '.' !in r
    ensures Split(Fields(h, m, s, r), ':') == [h, m, s + (['.'] + r)]
    ensures Split(s + (['.'] + r), '.') == [s, r]
  {
    var sr := s + (['.'] + r);
    assert ':' !in sr;
    SplitWhole(sr, ':');
    assert m + ([':'] + sr) == m + [':'] + sr;
    SplitAround(m, ':', sr);
    var msr := m + ([':'] + sr);
    assert Fields(h, m, s, r) == h + [':'] + msr;
    SplitAround(h, ':', msr);
    assert sr == s + ['.'] + r;
    SplitAround(s, '.', r);
    SplitWhole(r, '.');
  }

  /** A field int() accepts holds neither of the timestamp separators. */
  lemma NoSeparators(f: string)
    requires ParseInt(f).Some?
    ensures ':' !in f && '.' !in f
  {
    ParseIntAlphabet(f);
    assert !IntChar(':') && !IntChar('.');
  }

  /** timestamp_to_ms("H:M:S.R") == (h * 3600 + m * 60 + s) * 1000 + r whenever int() reads
      the four fields as h, m, s and r. */
  lemma TimestampFormula(H: string, M: string, S: string, R: string, h: int, m: int, s: int, r: int)
    requires ParseInt(H) == Some(h) && ParseInt(M) == Some(m)
    requires ParseInt(S) == Some(s) && ParseInt(R) == Some(r)
    ensures TimestampToMs(Fields(H, M, S, R)) == Success((h * 3600 + m * 60 + s) * 1000 + r)
  {
    NoSeparators(H);
    NoSeparators(M);
    NoSeparators(S);
    NoSeparators(R);
    SplitFields(H, M, S, R);
    assert TimestampToMs(Fields(H, M, S, R)) == FromFields(H, M, [S, R]);
  }

  /** Hours, minutes, seconds and milliseconds by floor division recombine to ms. */
  lemma ClockArithmetic(ms: int)
    ensures var total := ms / 1000;
      ((total / 3600) * 3600 + ((total % 3600) / 60) * 60 + total % 60) * 1000 + ms % 1000 == ms
  {
    var total := ms / 1000;
    var q := total % 3600;
    assert total == (total / 3600) * 3600 + q;
    assert q == (q / 60) * 60 + q % 60;
    assert total % 60 == q % 60 by {
      assert total == ((total / 3600) * 60 + q / 60) * 60 + q % 60;
    }
    assert ms == total * 1000 + ms % 1000;
  }

  /** Round trip: reading back what ms_to_timestamp prints gives the same milliseconds, for
      every integer, negative ones included. */
  lemma TimestampRoundTrip(ms: int)
    ensures TimestampToMs(MsToTimestamp(ms)) == Success(ms)
  {
    var total := ms / 1000;
    var h, m, s, r := total / 3600, (total % 3600) / 60, total % 60, ms % 1000;
    var H, M, S, R := FormatInt(h, 2), FormatInt(m, 2), FormatInt(s, 2), FormatInt(r, 3);
    assert MsToTimestamp(ms) == Fields(H, M, S, R);
    FormatIntReads(h, 2);
    FormatIntReads(m, 2);
    FormatIntReads(s, 2);
    FormatIntReads(r, 3);
    ClockArithmetic(ms);
    ReadsBackAs(H, M, S, R, h, m, s, r, ms);
  }

  /** TimestampFormula with the combined value named. */
  lemma ReadsBackAs(H: string, M: string, S: string, R: string, h: int, m: int, s: int, r: int, ms: int)
    requires ParseInt(H) == Some(h) && ParseInt(M) == Some(m)
    requires ParseInt(S) == Some(s) && ParseInt(R) == Some(r)
    requires (h * 3600 + m * 60 + s) * 1000 + r == ms
    ensures TimestampToMs(Fields(H, M, S, R)) == Success(ms)
  {
    TimestampFormula(H, M, S, R, h, m, s, r);
  }

  /** For ms >= 0 the printed fields are all digits: hours in at least two and equal to the
      whole hours of ms, minutes and seconds in exactly two and below 60, milliseconds in
      exactly three and below 1000. */
  lemma TimestampFieldRanges(ms: int)
    requires ms >= 0
    ensures var hms := Split(MsToTimestamp(ms), ':');
      && |hms| == 3
      && |hms[0]| >= 2 && AllDigits(hms[0]) && DigitsValue(hms[0]) == ms / 3600000
      && |hms[1]| == 2 && AllDigits(hms[1]) && DigitsValue(hms[1]) < 60
      && var sms := Split(hms[2], '.');
      && |sms| == 2
      && |sms[0]| == 2 && AllDigits(sms[0]) && DigitsValue(sms[0]) < 60
      && |sms[1]| == 3 && AllDigits(sms[1]) && DigitsValue(sms[1]) < 1000
  {
    var total := ms / 1000;
    var h, m, s, r := total / 3600, (total % 3600) / 60, total % 60, ms % 1000;
    var H, M, S, R := FormatInt(h, 2), FormatInt(m, 2), FormatInt(s, 2), FormatInt(r, 3);
    assert Pow10(2) == 100 && Pow10(3) == 1000;
    FormatIntWidth(m, 2);
    FormatIntWidth(s, 2);
    FormatIntWidth(r, 3);
    assert ':' !in H && ':' !in M && ':' !in S && ':' !in R && '.' !in S && '.' !in R;
    SplitFields(H, M, S, R);
    assert h == ms / 3600000;
  }
}
