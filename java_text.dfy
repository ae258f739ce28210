/** The few java.lang.String and java.lang.Long operations the file service
    relies on, with Java's own edge cases: `String.startsWith`,
    `String.split` with a one-character separator (trailing empty pieces are
    dropped), `Long.parseLong` (optional sign, decimal digits, 64-bit range)
    and `Long.toString`. */
module JavaText {
  import opened Results

  const LongMax: int := 0x7FFF_FFFF_FFFF_FFFF
  const LongMin: int := -0x8000_0000_0000_0000

  /** Wraps an integer into Java's 64-bit two's-complement `long`. */
  function WrapLong(x: int): (r: int)
    ensures LongMin <= r <= LongMax
    ensures LongMin <= x <= LongMax ==> r == x
  {
    (x - LongMin) % 0x1_0000_0000_0000_0000 + LongMin
  }

  /** One past Long.MAX_VALUE wraps to Long.MIN_VALUE. */
  lemma LongMaxPlusOneWraps()
    ensures WrapLong(LongMax + 1) == LongMin
  {
  }

  predicate StartsWith(s: string, prefix: string) {
    |prefix| <= |s| && s[..|prefix|] == prefix
  }

  // ---------------------------------------------------------------------------
  // String.split

  /** Every piece between occurrences of `sep`, empty pieces included: the
      split before Java removes the trailing empty strings. */
  function Segments(s: string, sep: char): (parts: seq<string>)
    ensures |parts| >= 1
    ensures forall i :: 0 <= i < |parts| ==> sep !in parts[i]
    decreases |s|
  {
    if |s| == 0 then [""]
    else if s[0] == sep then [""] + Segments(s[1..], sep)
    else
      var rest := Segments(s[1..], sep);
      [[s[0]] + rest[0]] + rest[1..]
  }

  /** Puts the pieces back together with `sep` between them. */
  function Join(parts: seq<string>, sep: char): string
    requires |parts| >= 1
    decreases |parts|
  {
    if |parts| == 1 then parts[0] else parts[0] + [sep] + Join(parts[1..], sep)
  }

  /** Splitting loses nothing: the pieces joined again give the input back. */
  lemma {:induction false} JoinSegments(s: string, sep: char)
    ensures Join(Segments(s, sep), sep) == s
    decreases |s|
  {
    if |s| == 0 {
    } else if s[0] == sep {
      JoinSegments(s[1..], sep);
      assert [sep] + s[1..] == s;
    } else {
      JoinSegments(s[1..], sep);
      JoinSegmentsCons(s, sep);
    }
  }

  /** The step of `JoinSegments` for a first character other than the
      separator: it joins the first piece. */
  lemma JoinSegmentsCons(s: string, sep: char)
    requires |s| > 0 && s[0] != sep
    requires Join(Segments(s[1..], sep), sep) == s[1..]
    ensures Join(Segments(s, sep), sep) == s
  {
    var rest := Segments(s[1..], sep);
    var parts := Segments(s, sep);
    assert parts[1..] == rest[1..];
    if |rest| == 1 {
      assert [s[0]] + s[1..] == s;
    } else {
      calc {
        Join(parts, sep);
        parts[0] + [sep] + Join(parts[1..], sep);
        ([s[0]] + rest[0]) + [sep] + Join(rest[1..], sep);
        [s[0]] + (rest[0] + [sep] + Join(rest[1..], sep));
        [s[0]] + Join(rest, sep);
        s;
      }
    }
  }

  /** A piece free of the separator followed by the separator splits off as
      the first piece. */
  lemma {:induction false} SegmentsCons(a: string, sep: char, b: string)
    requires sep !in a
    ensures Segments(a + [sep] + b, sep) == [a] + Segments(b, sep)
    decreases |a|
  {
    var s := a + [sep] + b;
    if |a| == 0 {
      assert s[1..] == b;
    } else {
      assert s[1..] == a[1..] + [sep] + b;
      SegmentsCons(a[1..], sep, b);
      assert [a[0]] + a[1..] == a;
    }
  }

  /** A string without the separator is one single piece. */
  lemma {:induction false} SegmentsNoSep(a: string, sep: char)
    requires sep !in a
    ensures Segments(a, sep) == [a]
    decreases |a|
  {
    if |a| > 0 {
      SegmentsNoSep(a[1..], sep);
      assert [a[0]] + a[1..] == a;
    }
  }

  /** Java removes the empty strings at the end of a split's result. */
  function DropTrailingEmpty(parts: seq<string>): (r: seq<string>)
    ensures |r| <= |parts| && r == parts[..|r|]
    ensures |r| > 0 ==> r[|r| - 1] != ""
    ensures forall i :: |r| <= i < |parts| ==> parts[i] == ""
    decreases |parts|
  {
    if |parts| == 0 then []
    else if parts[|parts| - 1] == "" then DropTrailingEmpty(parts[..|parts| - 1])
    else parts
  }

  /** `s.split(String.valueOf(sep))`: when `sep` does not occur the result is
      `[s]` (even for the empty string); otherwise the pieces with the
      trailing empty ones removed, so "5-" gives ["5"] and "-" gives []. */
  function Split(s: string, sep: char): (parts: seq<string>)
    ensures forall i :: 0 <= i < |parts| ==> sep !in parts[i]
    ensures sep !in s ==> parts == [s]
    ensures |parts| <= |Segments(s, sep)| && parts == Segments(s, sep)[..|parts|]
    ensures sep in s ==> forall i :: |parts| <= i < |Segments(s, sep)| ==> Segments(s, sep)[i] == ""
    ensures sep in s && |parts| > 0 ==> parts[|parts| - 1] != ""
  {
    if sep !in s then (SegmentsNoSep(s, sep); [s]) else DropTrailingEmpty(Segments(s, sep))
  }

  /** A split whose first piece is non-empty keeps that piece first. */
  lemma SplitFirst(a: string, sep: char, b: string)
    requires sep !in a && a != ""
    ensures |Split(a + [sep] + b, sep)| >= 1 && Split(a + [sep] + b, sep)[0] == a
  {
    SegmentsCons(a, sep, b);
    var s := a + [sep] + b;
    assert s[|a|] == sep;
    var segs := Segments(s, sep);
    var parts := DropTrailingEmpty(segs);
    assert segs[0] == a;
  }

  // ---------------------------------------------------------------------------
  // Long.parseLong and Long.toString (ASCII digits)

  predicate IsDigit(c: char) {
    '0' <= c <= '9'
  }

  predicate AllDigits(s: string) {
    forall i :: 0 <= i < |s| ==> IsDigit(s[i])
  }

  /** The value of a run of decimal digits, most significant first. */
  function DigitsValue(s: string): nat
    requires AllDigits(s)
    decreases |s|
  {
    if |s| == 0 then 0 else DigitsValue(s[..|s| - 1]) * 10 + (s[|s| - 1] as int - '0' as int)
  }

  /** A sign character, which `Long.parseLong` accepts in front only. */
  predicate IsSign(c: char) {
    c == '+' || c == '-'
  }

  /** The text `Long.parseLong` reads as a number: an optional sign, then at
      least one decimal digit. */
  predicate SignedDigits(s: string) {
    if |s| > 0 && IsSign(s[0]) then |s| > 1 && AllDigits(s[1..]) else |s| > 0 && AllDigits(s)
  }

  /** The value that text denotes, in unbounded integers. */
  function SignedValue(s: string): int
    requires SignedDigits(s)
  {
    if s[0] == '-' then -(DigitsValue(s[1..]) as int)
    else if s[0] == '+' then DigitsValue(s[1..])
    else DigitsValue(s)
  }

  /** `Long.parseLong(s)`, with None standing for the NumberFormatException:
      an optional '+' or '-', then at least one digit, and the value must fit
      in a `long`. The empty string, a sign alone, any other character and
      a value out of range all throw. */
  function ParseLong(s: string): (r: Option<int>)
    ensures r.Some? <==> SignedDigits(s) && LongMin <= SignedValue(s) <= LongMax
    ensures r.Some? ==> r.value == SignedValue(s)
    ensures |s| == 0 ==> r.None?
    ensures (exists i :: 0 <= i < |s| && !IsDigit(s[i]) && !(i == 0 && IsSign(s[i]))) ==> r.None?
    ensures r.Some? ==> |s| > 0 && LongMin <= r.value <= LongMax
    ensures r.Some? && '-' !in s ==> r.value >= 0
  {
    if |s| > 0 && (s[0] == '+' || s[0] == '-') then
      var digits := s[1..];
      if |digits| > 0 && AllDigits(digits) then
        var v: int := if s[0] == '-' then -(DigitsValue(digits) as int) else DigitsValue(digits);
        if LongMin <= v <= LongMax then Some(v) else None
      else None
    else if |s| > 0 && AllDigits(s) && DigitsValue(s) <= LongMax then Some(DigitsValue(s))
    else None
  }

  function DigitChar(d: nat): (c: char)
    requires d < 10
    ensures IsDigit(c) && c as int - '0' as int == d
  {
    ('0' as int + d) as char
  }

  /** The decimal digits of a non-negative number, without leading zeros. */
  function Decimal(n: nat): (s: string)
    ensures |s| > 0 && AllDigits(s)
    decreases n
  {
    if n < 10 then [DigitChar(n)] else Decimal(n / 10) + [DigitChar(n % 10)]
  }

  /** `Long.toString(i)`. */
  function LongToString(i: int): string {
    if i < 0 then "-" + Decimal(-i) else Decimal(i)
  }

  lemma {:induction false} DecimalValue(n: nat)
    ensures DigitsValue(Decimal(n)) == n
    decreases n
  {
    if n >= 10 {
      var s := Decimal(n);
      assert s[..|s| - 1] == Decimal(n / 10);
      DecimalValue(n / 10);
    }
  }

  /** `Long.parseLong(Long.toString(i)) == i` for every `long`. */
  lemma ParseLongToString(i: int)
    requires LongMin <= i <= LongMax
    ensures ParseLong(LongToString(i)) == Some(i)
  {
    if i < 0 {
      ParseLongOfNegative(-i);
    } else {
      ParseLongOfDecimal(i);
    }
  }

  /** A non-negative `long` written in decimal parses back. */
  lemma ParseLongOfDecimal(n: nat)
    requires n <= LongMax
    ensures ParseLong(Decimal(n)) == Some(n)
  {
    DecimalValue(n);
    assert IsDigit(Decimal(n)[0]);
  }

  /** A run of digits whose value exceeds Long.MAX_VALUE is refused. */
  lemma ParseLongOverflow(s: string)
    requires |s| > 0 && AllDigits(s) && DigitsValue(s) > LongMax
    ensures ParseLong(s) == None
  {
    assert IsDigit(s[0]);
  }

  /** A negative `long` written as '-' and its magnitude parses back. */
  lemma ParseLongOfNegative(n: nat)
    requires 0 < n <= -LongMin
    ensures ParseLong("-" + Decimal(n)) == Some(-(n as int))
  {
    DecimalValue(n);
    assert ("-" + Decimal(n))[1..] == Decimal(n);
  }
}
