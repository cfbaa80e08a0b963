/** The parts of the .NET string and number library whose behaviour the
    search code depends on, written out: String.IsNullOrEmpty, Length
    (UTF-16 code units), Char.IsWhiteSpace, Trim, ordinal Replace,
    Split(char), Int32.ToString and Convert.ToInt32(string). */
module NetStrings {
  import opened Wrappers

  /** System.Int32. */
  newtype int32 = x: int | -0x8000_0000 <= x < 0x8000_0000

  /** String.IsNullOrEmpty. */
  predicate IsNullOrEmpty(s: Option<string>) {
    s.None? || s.value == []
  }

  /** String.Length: the number of UTF-16 code units, so a character
      outside the Basic Multilingual Plane counts twice. */
  function Utf16Length(s: string): (n: nat)
    ensures |s| <= n <= 2 * |s|
    ensures (forall i :: 0 <= i < |s| ==> s[i] as int < 0x10000) ==> n == |s|
  {
    if s == [] then 0
    else (if s[0] as int < 0x10000 then 1 else 2) + Utf16Length(s[1..])
  }

  /** Char.IsWhiteSpace: the Unicode categories Zs, Zl and Zp, plus
      U+0009 to U+000D and U+0085. */
  predicate IsWhiteSpace(c: char) {
    || ('\t' <= c <= '\r')
    || c == ' '
    || c == '\U{0085}'
    || c == '\U{00A0}'
    || c == '\U{1680}'
    || ('\U{2000}' <= c <= '\U{200A}')
    || c == '\U{2028}'
    || c == '\U{2029}'
    || c == '\U{202F}'
    || c == '\U{205F}'
    || c == '\U{3000}'
  }

  /** String.TrimStart(): the longest suffix that does not begin with white space. */
  function TrimStart(s: string): (r: string)
    ensures |r| <= |s| && r == s[|s| - |r|..]
    ensures forall k :: 0 <= k < |s| - |r| ==> IsWhiteSpace(s[k])
    ensures r == [] || !IsWhiteSpace(r[0])
  {
    if s != [] && IsWhiteSpace(s[0]) then TrimStart(s[1..]) else s
  }

  /** String.TrimEnd(): the longest prefix that does not end with white space. */
  function TrimEnd(s: string): (r: string)
    ensures |r| <= |s| && r == s[..|r|]
    ensures forall k :: |r| <= k < |s| ==> IsWhiteSpace(s[k])
    ensures r == [] || !IsWhiteSpace(r[|r| - 1])
  {
    if s != [] && IsWhiteSpace(s[|s| - 1]) then TrimEnd(s[..|s| - 1]) else s
  }

  /** String.Trim(): drops the white space at both ends and nothing else. */
  function Trim(s: string): (r: string)
    ensures r == [] || (!IsWhiteSpace(r[0]) && !IsWhiteSpace(r[|r| - 1]))
    ensures exists i :: TrimmedAt(s, r, i)
  {
    var t := TrimStart(s);
    var r := TrimEnd(t);
    assert TrimmedAt(s, r, |s| - |t|);
    r
  }

  /** r is s with white space only removed from before position i and after
      position i + |r|. */
  ghost predicate TrimmedAt(s: string, r: string, i: int) {
    && 0 <= i && i + |r| <= |s|
    && r == s[i..i + |r|]
    && (forall k :: 0 <= k < i ==> IsWhiteSpace(s[k]))
    && (forall k :: i + |r| <= k < |s| ==> IsWhiteSpace(s[k]))
  }

  predicate StartsWith(s: string, prefix: string) {
    |prefix| <= |s| && s[..|prefix|] == prefix
  }

  /** Ordinal String.Contains. */
  predicate Contains(s: string, pattern: string) {
    StartsWith(s, pattern) || (s != [] && Contains(s[1..], pattern))
  }

  /** Ordinal String.Replace(oldValue, newValue): scans left to right, replaces
      non-overlapping occurrences and never rescans the text it inserted.
      .NET throws when oldValue is empty. */
  function Replace(s: string, oldValue: string, newValue: string): (r: string)
    requires oldValue != []
    decreases |s|
  {
    if s == [] then []
    else if StartsWith(s, oldValue) then newValue + Replace(s[|oldValue|..], oldValue, newValue)
    else [s[0]] + Replace(s[1..], oldValue, newValue)
  }

  /** Text without an occurrence of the old value comes back unchanged. */
  lemma {:induction false} ReplaceAbsent(s: string, oldValue: string, newValue: string)
    requires oldValue != [] && !Contains(s, oldValue)
    ensures Replace(s, oldValue, newValue) == s
    decreases |s|
  {
    if s != [] {
      ReplaceAbsent(s[1..], oldValue, newValue);
      assert s == [s[0]] + s[1..];
    }
  }

  /** s with every occurrence of c deleted, order kept. */
  function Without(s: string, c: char): (r: string)
    ensures c !in r
  {
    if s == [] then []
    else if s[0] == c then Without(s[1..], c) else [s[0]] + Without(s[1..], c)
  }

  /** Deleting c keeps every other character as often as it occurred. */
  lemma {:induction false} WithoutCounts(s: string, c: char)
    ensures multiset(Without(s, c)) == multiset(s)[c := 0]
  {
    if s != [] {
      WithoutCounts(s[1..], c);
      assert s == [s[0]] + s[1..];
    }
  }

  /** Replacing a one-character string by the empty string deletes that
      character and nothing else. */
  lemma {:induction false} ReplaceCharByEmpty(s: string, c: char)
    ensures Replace(s, [c], "") == Without(s, c)
  {
    if s != [] {
      ReplaceCharByEmpty(s[1..], c);
    }
  }

  /** Replacing a double space by a single one removes spaces only: every
      other character survives, in order. */
  lemma {:induction false} ReplaceDoubleSpaceRemovesOnlySpaces(s: string)
    ensures Without(Replace(s, "  ", " "), ' ') == Without(s, ' ')
    ensures |Replace(s, "  ", " ")| <= |s|
  {
    if s == [] {
    } else if StartsWith(s, "  ") {
      ReplaceDoubleSpaceRemovesOnlySpaces(s[2..]);
      assert s == "  " + s[2..];
      WithoutAppend(" ", Replace(s[2..], "  ", " "), ' ');
      WithoutAppend("  ", s[2..], ' ');
    } else {
      ReplaceDoubleSpaceRemovesOnlySpaces(s[1..]);
      assert s == [s[0]] + s[1..];
      WithoutAppend([s[0]], Replace(s[1..], "  ", " "), ' ');
      WithoutAppend([s[0]], s[1..], ' ');
    }
  }

  lemma {:induction false} WithoutAppend(a: string, b: string, c: char)
    ensures Without(a + b, c) == Without(a, c) + Without(b, c)
  {
    if a == [] {
      assert a + b == b;
    } else {
      var ab := a + b;
      var tail := a[1..] + b;
      assert ab[0] == a[0] && ab[1..] == tail;
      WithoutAppend(a[1..], b, c);
      var wt := Without(tail, c);
      assert wt == Without(a[1..], c) + Without(b, c);
      if a[0] == c {
        assert Without(ab, c) == wt;
        assert Without(a, c) == Without(a[1..], c);
      } else {
        assert Without(ab, c) == [a[0]] + wt;
        assert Without(a, c) == [a[0]] + Without(a[1..], c);
        assert [a[0]] + (Without(a[1..], c) + Without(b, c)) == ([a[0]] + Without(a[1..], c)) + Without(b, c);
      }
    }
  }

  function Spaces(n: nat): (r: string)
    ensures |r| == n && forall i :: 0 <= i < n ==> r[i] == ' '
  {
    seq(n, _ => ' ')
  }

  /** The single pass halves a run of n spaces, rounding up: four spaces
      become two, not one. */
  lemma {:induction false} ReplaceDoubleSpaceOnRun(n: nat)
    ensures Replace(Spaces(n), "  ", " ") == Spaces((n + 1) / 2)
  {
    if n >= 2 {
      ReplaceDoubleSpaceOnRun(n - 2);
      assert Spaces(n)[2..] == Spaces(n - 2);
      assert " " + Spaces((n - 1) / 2) == Spaces((n + 1) / 2);
    } else if n == 1 {
      assert Spaces(1)[1..] == [];
    }
  }

  /** String.Join(separator, parts). */
  function Join(parts: seq<string>, sep: char): string {
    if parts == [] then []
    else if |parts| == 1 then parts[0]
    else parts[0] + [sep] + Join(parts[1..], sep)
  }

  /** String.Split(char) without options: one part more than there are
      separators, empty parts kept, so "" gives [""] and "a  b" gives
      ["a", "", "b"]. */
  function Split(s: string, sep: char): (parts: seq<string>)
    ensures |parts| == multiset(s)[sep] + 1
    ensures forall i :: 0 <= i < |parts| ==> sep !in parts[i]
    decreases |s|
  {
    if s == [] then [""]
    else
      var rest := Split(s[1..], sep);
      assert s == [s[0]] + s[1..];
      if s[0] == sep then [""] + rest
      else [[s[0]] + rest[0]] + rest[1..]
  }

  /** Joining the parts of a split gives back the string. */
  lemma {:induction false} JoinSplit(s: string, sep: char)
    ensures Join(Split(s, sep), sep) == s
    decreases |s|
  {
    if s != [] {
      JoinSplit(s[1..], sep);
      var rest := Split(s[1..], sep);
      assert s == [s[0]] + s[1..];
      if s[0] == sep {
        JoinCons("", rest, sep);
      } else {
        JoinExtendFirst(s[0], rest, sep);
      }
    }
  }

  lemma JoinCons(p: string, rest: seq<string>, sep: char)
    requires |rest| >= 1
    ensures Join([p] + rest, sep) == p + [sep] + Join(rest, sep)
  {
    assert ([p] + rest)[1..] == rest;
  }

  lemma JoinExtendFirst(c: char, parts: seq<string>, sep: char)
    requires |parts| >= 1
    ensures Join([[c] + parts[0]] + parts[1..], sep) == [c] + Join(parts, sep)
  {
    if |parts| > 1 {
      JoinCons([c] + parts[0], parts[1..], sep);
      assert parts == [parts[0]] + parts[1..];
      JoinCons(parts[0], parts[1..], sep);
    }
  }

  /** Splitting undoes joining when no part holds the separator. */
  lemma {:induction false} SplitJoin(parts: seq<string>, sep: char)
    requires |parts| >= 1
    requires forall i :: 0 <= i < |parts| ==> sep !in parts[i]
    ensures Split(Join(parts, sep), sep) == parts
  {
    if |parts| == 1 {
      SplitNoSeparator(parts[0], sep);
    } else {
      SplitJoin(parts[1..], sep);
      SplitAfterPart(parts[0], Join(parts[1..], sep), sep);
    }
  }

  lemma {:induction false} SplitNoSeparator(p: string, sep: char)
    requires sep !in p
    ensures Split(p, sep) == [p]
  {
    if p != [] {
      assert p[0] != sep && sep !in p[1..] && p == [p[0]] + p[1..];
      SplitNoSeparator(p[1..], sep);
    }
  }

  lemma {:induction false} SplitAfterPart(p: string, t: string, sep: char)
    requires sep !in p
    ensures Split(p + [sep] + t, sep) == [p] + Split(t, sep)
    decreases |p|
  {
    var s := p + [sep] + t;
    if p == [] {
      assert s[1..] == t;
    } else {
      assert s[1..] == p[1..] + [sep] + t;
      SplitAfterPart(p[1..], t, sep);
      assert [p[0]] + p[1..] == p;
    }
  }

  predicate IsDigit(c: char) {
    '0' <= c <= '9'
  }

  predicate AllDigits(s: string) {
    forall i :: 0 <= i < |s| ==> IsDigit(s[i])
  }

  function DigitChar(d: nat): (c: char)
    requires d < 10
    ensures IsDigit(c)
  {
    ('0' as int + d) as char
  }

  function DigitValue(c: char): (d: nat)
    requires IsDigit(c)
    ensures d < 10
  {
    c as int - '0' as int
  }

  /** Decimal digits of n, most significant first, no leading zero. */
  function NatToDecimal(n: nat): (s: string)
    ensures s != [] && AllDigits(s)
    ensures |s| > 1 ==> s[0] != '0'
  {
    if n < 10 then [DigitChar(n)]
    else
      var high := NatToDecimal(n / 10);
      assert |high| == 1 ==> high[0] == DigitChar(n / 10) && n / 10 > 0;
      high + [DigitChar(n % 10)]
  }

  /** The number a string of decimal digits denotes. */
  function DecimalValue(s: string): nat
    requires AllDigits(s)
  {
    if s == [] then 0 else DecimalValue(s[..|s| - 1]) * 10 + DigitValue(s[|s| - 1])
  }

  lemma {:induction false} DecimalRoundTrip(n: nat)
    ensures DecimalValue(NatToDecimal(n)) == n
  {
    if n >= 10 {
      DecimalRoundTrip(n / 10);
      var s := NatToDecimal(n);
      assert s[..|s| - 1] == NatToDecimal(n / 10);
    }
  }

  /** Int32.ToString(): an optional '-' and the decimal digits of the magnitude. */
  function Int32ToString(n: int32): (s: string)
    ensures s != []
  {
    if n < 0 then "-" + NatToDecimal(-(n as int)) else NatToDecimal(n as int)
  }

  datatype ConvertError = FormatException | OverflowException

  /** The white space NumberStyles.Integer lets a number be padded with:
      U+0009 to U+000D and the space. */
  predicate IsNumberWhite(c: char) {
    ('\t' <= c <= '\r') || c == ' '
  }

  predicate AllNumberWhite(w: string) {
    forall k :: 0 <= k < |w| ==> IsNumberWhite(w[k])
  }

  lemma AllNumberWhiteConcat(a: string, b: string)
    requires AllNumberWhite(a) && AllNumberWhite(b)
    ensures AllNumberWhite(a + b)
  {
    forall k | 0 <= k < |a + b| ensures IsNumberWhite((a + b)[k]) {
      if k >= |a| {
        assert (a + b)[k] == b[k - |a|];
      }
    }
  }

  /** TrimStart for the padding of a number. */
  function NumberTrimStart(s: string): (r: string)
    ensures |r| <= |s| && r == s[|s| - |r|..]
    ensures forall k :: 0 <= k < |s| - |r| ==> IsNumberWhite(s[k])
    ensures r == [] || !IsNumberWhite(r[0])
  {
    if s != [] && IsNumberWhite(s[0]) then NumberTrimStart(s[1..]) else s
  }

  /** TrimEnd for the padding of a number. */
  function NumberTrimEnd(s: string): (r: string)
    ensures |r| <= |s| && r == s[..|r|]
    ensures forall k :: |r| <= k < |s| ==> IsNumberWhite(s[k])
    ensures r == [] || !IsNumberWhite(r[|r| - 1])
  {
    if s != [] && IsNumberWhite(s[|s| - 1]) then NumberTrimEnd(s[..|s| - 1]) else s
  }

  /** The text of a number without its padding. */
  function TrimNumberWhite(s: string): (r: string)
    ensures r == [] || (!IsNumberWhite(r[0]) && !IsNumberWhite(r[|r| - 1]))
  {
    var t := NumberTrimStart(s);
    var r := NumberTrimEnd(t);
    assert r != [] ==> r[0] == t[0];
    r
  }

  /** White space before a text that does not start with it is all
      NumberTrimStart removes. */
  lemma {:induction false} NumberTrimStartPadded(before: string, s: string)
    requires AllNumberWhite(before)
    requires s == [] || !IsNumberWhite(s[0])
    ensures NumberTrimStart(before + s) == s
  {
    if before != [] {
      assert (before + s)[0] == before[0];
      assert (before + s)[1..] == before[1..] + s;
      NumberTrimStartPadded(before[1..], s);
    } else {
      assert before + s == s;
    }
  }

  /** White space after a text that does not end with it is all
      NumberTrimEnd removes. */
  lemma {:induction false} NumberTrimEndPadded(s: string, after: string)
    requires AllNumberWhite(after)
    requires s == [] || !IsNumberWhite(s[|s| - 1])
    ensures NumberTrimEnd(s + after) == s
  {
    if after != [] {
      var t := s + after;
      assert t[|t| - 1] == after[|after| - 1];
      assert t[..|t| - 1] == s + after[..|after| - 1];
      NumberTrimEndPadded(s, after[..|after| - 1]);
    } else {
      assert s + after == s;
    }
  }

  /** Padding on either side is all the trimming removes. */
  lemma TrimNumberWhitePadded(before: string, s: string, after: string)
    requires AllNumberWhite(before)
    requires AllNumberWhite(after)
    requires s == [] || (!IsNumberWhite(s[0]) && !IsNumberWhite(s[|s| - 1]))
    ensures TrimNumberWhite(before + s + after) == s
  {
    if s == [] {
      var w := before + after;
      AllNumberWhiteConcat(before, after);
      assert before + s + after == w + [];
      NumberTrimStartPadded(w, []);
    } else {
      assert before + s + after == before + (s + after);
      assert (s + after)[0] == s[0];
      NumberTrimStartPadded(before, s + after);
      NumberTrimEndPadded(s, after);
    }
  }

  /** An optional sign followed by decimal digits: anything else is
      malformed, a value out of range overflows. */
  function ParseSignedDigits(s: string): Result<int32, ConvertError> {
    var signed := s != [] && (s[0] == '-' || s[0] == '+');
    var digits := if signed then s[1..] else s;
    if digits == [] || !AllDigits(digits) then Failure(FormatException)
    else
      var v: int := if signed && s[0] == '-' then -(DecimalValue(digits) as int) else DecimalValue(digits);
      if -0x8000_0000 <= v < 0x8000_0000 then Success(v as int32) else Failure(OverflowException)
  }

  /** Int32.Parse(string), that is NumberStyles.Integer: leading and trailing
      white space, an optional leading sign, decimal digits. */
  function ParseInt32(s: string): Result<int32, ConvertError> {
    ParseSignedDigits(TrimNumberWhite(s))
  }

  /** Padding a number with white space does not change what it parses to:
      " 7" and "7\t" convert like "7". */
  lemma ParseIgnoresPadding(before: string, s: string, after: string)
    requires AllNumberWhite(before)
    requires AllNumberWhite(after)
    requires s == [] || (!IsNumberWhite(s[0]) && !IsNumberWhite(s[|s| - 1]))
    ensures ParseInt32(before + s + after) == ParseSignedDigits(s)
  {
    TrimNumberWhitePadded(before, s, after);
  }

  /** A digit after a space converts to its value, as " 7" gives 7. */
  lemma PaddedDigitConverts(c: char)
    requires IsDigit(c)
    ensures ParseInt32([' ', c]) == Success(DigitValue(c) as int32)
  {
    SpaceDigitTrims(c);
    DigitParses(c);
  }

  lemma SpaceDigitTrims(c: char)
    requires IsDigit(c)
    ensures TrimNumberWhite([' ', c]) == [c]
  {
    TrimNumberWhitePadded([' '], [c], []);
    assert [' '] + [c] + [] == [' ', c];
  }

  lemma DigitParses(c: char)
    requires IsDigit(c)
    ensures ParseSignedDigits([c]) == Success(DigitValue(c) as int32)
  {
    assert DecimalValue([c]) == DigitValue(c) by {
      assert [c][..0] == [];
    }
  }

  /** Convert.ToInt32(string): null converts to 0. */
  function ConvertToInt32(value: Option<string>): (r: Result<int32, ConvertError>)
    ensures value.None? ==> r == Success(0)
  {
    match value
    case None => Success(0)
    case Some(s) => ParseInt32(s)
  }

  /** An Int32 rendered by ToString converts back to itself. */
  lemma Int32RoundTrip(n: int32)
    ensures ConvertToInt32(Some(Int32ToString(n))) == Success(n)
  {
    Int32ToStringUnpadded(n);
    SignedDigitsRoundTrip(n);
  }

  /** ToString writes no padding. */
  lemma Int32ToStringUnpadded(n: int32)
    ensures TrimNumberWhite(Int32ToString(n)) == Int32ToString(n)
  {
    var s := Int32ToString(n);
    assert !IsNumberWhite(s[0]) && !IsNumberWhite(s[|s| - 1]);
    TrimNumberWhitePadded([], s, []);
    assert [] + s + [] == s;
  }

  /** The sign and digits ToString writes read back as the number. */
  lemma SignedDigitsRoundTrip(n: int32)
    ensures ParseSignedDigits(Int32ToString(n)) == Success(n)
  {
    var s := Int32ToString(n);
    if n < 0 {
      DecimalRoundTrip(-(n as int));
      assert s[1..] == NatToDecimal(-(n as int));
    } else {
      DecimalRoundTrip(n as int);
    }
  }
}
