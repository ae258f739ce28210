/** Byte-range resolution of `viewFileRange` and `getFileStream`: a partial,
    non-conforming reading of the `bytes=first-last` form of section 2.1 of
    RFC 7233. A suffix range (`bytes=-N`) and a list of ranges are refused
    with 400; only the first two pieces of the header are looked at. */
module RangeResolver {
  import opened Results
  import opened JavaText

  /** What the header asks for: nothing (the whole file), or a first byte
      and perhaps a last one. */
  datatype RangeSpec = WholeFile | Requested(first: int, last: Option<int>)

  /** The header takes part only when present and starting with "bytes=". */
  predicate IsBytesHeader(header: Option<string>) {
    header.Some? && StartsWith(header.value, "bytes=")
  }

  /** The parsing common to both operations: `substring(6).split("-")`, then
      the pieces are read by `ParsePieces`. */
  function ParseRangeHeader(header: Option<string>): (r: Result<RangeSpec>)
    ensures r.Ok? ==> (r.value.Requested? <==> IsBytesHeader(header))
    ensures r.Err? ==> IsBytesHeader(header) && (r.error == BadRequest || r.error == InternalServerError)
    ensures r.Ok? && r.value.Requested? ==> 0 <= r.value.first <= LongMax
    ensures r.Ok? && r.value.Requested? && r.value.last.Some? ==> 0 <= r.value.last.value <= LongMax
  {
    if !IsBytesHeader(header) then Ok(WholeFile)
    else ParsePieces(Split(header.value[6..], '-'))
  }

  /** `Long.parseLong` of the first piece and, when a second non-empty piece
      exists, of that one; the pieces after the second are ignored. A
      NumberFormatException gives 400; no piece at all (the header is
      "bytes=" followed only by dashes) makes `ranges[0]` throw an
      ArrayIndexOutOfBoundsException, which nothing catches: 500. */
  function ParsePieces(ranges: seq<string>): (r: Result<RangeSpec>)
    requires forall i :: 0 <= i < |ranges| ==> '-' !in ranges[i]
    ensures r.Ok? ==> r.value.Requested?
    ensures r.Err? ==> r.error == BadRequest || r.error == InternalServerError
    ensures r.Ok? ==> 0 <= r.value.first <= LongMax
    ensures r.Ok? && r.value.last.Some? ==> 0 <= r.value.last.value <= LongMax
  {
    if |ranges| == 0 then Err(InternalServerError)
    else
      match ParseLong(ranges[0])
      case None => Err(BadRequest)
      case Some(first) =>
        if |ranges| > 1 && ranges[1] != "" then
          match ParseLong(ranges[1])
          case None => Err(BadRequest)
          case Some(last) => Ok(Requested(first, Some(last)))
        else Ok(Requested(first, None))
  }

  /** A header "bytes=" + x is read from the pieces of x. */
  lemma BytesHeaderPieces(x: string)
    ensures ParseRangeHeader(Some("bytes=" + x)) == ParsePieces(Split(x, '-'))
  {
    var h := "bytes=" + x;
    assert h[..6] == "bytes=" && h[6..] == x;
  }

  /** Two dash-free pieces, the first non-empty, split back apart. */
  lemma SplitTwo(a: string, b: string)
    requires '-' !in a && '-' !in b && a != ""
    ensures Split(a + ['-'] + b, '-') == if b == "" then [a] else [a, b]
  {
    var s := a + ['-'] + b;
    assert s[|a|] == '-';
    SegmentsCons(a, '-', b);
    SegmentsNoSep(b, '-');
    assert Segments(s, '-') == [a, b];
    if b == "" {
      assert [a, b][..1] == [a];
      assert DropTrailingEmpty([a]) == [a];
    }
  }

  /** A well-formed single range header, as a client such as a media player
      sends it: "bytes=<first>-<last>" or "bytes=<first>-". */
  function RangeHeader(first: nat, last: Option<nat>): string {
    "bytes=" + (Decimal(first) + ['-'] + (if last.Some? then Decimal(last.value) else ""))
  }

  /** Every well-formed single range header is read back as the window it
      names. */
  lemma ParseRangeHeaderRoundTrip(first: nat, last: Option<nat>)
    requires first <= LongMax && (last.Some? ==> last.value <= LongMax)
    ensures ParseRangeHeader(Some(RangeHeader(first, last))) == Ok(Requested(first, last))
  {
    var a := Decimal(first);
    var b := if last.Some? then Decimal(last.value) else "";
    BytesHeaderPieces(a + ['-'] + b);
    assert '-' !in a by { assert AllDigits(a); }
    assert '-' !in b by { assert last.Some? ==> AllDigits(b); }
    SplitTwo(a, b);
    ParseLongToString(first);
    if last.Some? {
      ParseLongToString(last.value);
    }
  }

  /** A suffix range "bytes=-N" is refused with 400: its first piece is
      empty, which `Long.parseLong` rejects. */
  lemma SuffixRangeRefused(n: nat)
    ensures ParseRangeHeader(Some("bytes=" + ("" + ['-'] + Decimal(n)))) == Err(BadRequest)
  {
    var x := "" + ['-'] + Decimal(n);
    BytesHeaderPieces(x);
    assert x[0] == '-';
    SegmentsCons("", '-', Decimal(n));
    assert '-' !in Decimal(n) by { assert AllDigits(Decimal(n)); }
    SegmentsNoSep(Decimal(n), '-');
  }

  /** A bound past Long.MAX_VALUE is refused with 400: `Long.parseLong`
      throws on the overflow, whichever of the two bounds it is. */
  lemma OverflowingBoundRefused(first: nat, last: Option<nat>)
    requires first > LongMax || (last.Some? && last.value > LongMax)
    ensures ParseRangeHeader(Some(RangeHeader(first, last))) == Err(BadRequest)
  {
    var a := Decimal(first);
    var b := if last.Some? then Decimal(last.value) else "";
    BytesHeaderPieces(a + ['-'] + b);
    assert '-' !in a by { assert AllDigits(a); }
    assert '-' !in b by { assert last.Some? ==> AllDigits(b); }
    SplitTwo(a, b);
    DecimalValue(first);
    if first > LongMax {
      ParseLongOverflow(a);
    } else {
      ParseLongOfDecimal(first);
      DecimalValue(last.value);
      ParseLongOverflow(b);
    }
  }

  /** Pieces after the second are ignored: "bytes=<a>-<b>-<c>" is read as
      the range a-b. */
  lemma ThirdPieceIgnored(a: nat, b: nat, c: nat)
    requires a <= LongMax && b <= LongMax
    ensures ParseRangeHeader(Some("bytes=" + (Decimal(a) + ['-'] + (Decimal(b) + ['-'] + Decimal(c))))) ==
              Ok(Requested(a, Some(b)))
  {
    DigitsAreDashFree(Decimal(b));
    SplitThree(Decimal(a), Decimal(b), Decimal(c));
    BytesHeaderPieces(Decimal(a) + ['-'] + (Decimal(b) + ['-'] + Decimal(c)));
    ParseLongOfDecimal(a);
    ParseLongOfDecimal(b);
  }

  /** A list of ranges such as "bytes=0-5,9-10" is refused with 400: its
      second piece ("5,9") holds a comma, so it is not a number. */
  lemma RangeListRefused(p0: string, p1: string, p2: string)
    requires AllDigits(p0) && p0 != "" && DigitsValue(p0) <= LongMax
    requires '-' !in p1 && ',' in p1
    requires AllDigits(p2) && p2 != ""
    ensures ParseRangeHeader(Some("bytes=" + (p0 + ['-'] + (p1 + ['-'] + p2)))) == Err(BadRequest)
  {
    SplitThree(p0, p1, p2);
    BytesHeaderPieces(p0 + ['-'] + (p1 + ['-'] + p2));
    assert ParseLong(p0) == Some(DigitsValue(p0)) by {
      assert IsDigit(p0[0]);
    }
    CommaIsNotANumber(p1);
  }

  /** `Long.parseLong` refuses any string holding a comma. */
  lemma CommaIsNotANumber(s: string)
    requires ',' in s
    ensures ParseLong(s) == None
  {
    var i :| 0 <= i < |s| && s[i] == ',';
    assert !IsDigit(s[i]);
    if |s| > 0 && (s[0] == '+' || s[0] == '-') {
      assert i > 0 && s[1..][i - 1] == ',';
    }
  }

  /** Three dash-free pieces, the outer ones made of digits, split back
      apart. */
  lemma SplitThree(p0: string, p1: string, p2: string)
    requires AllDigits(p0) && AllDigits(p2) && p2 != "" && '-' !in p1
    ensures Split(p0 + ['-'] + (p1 + ['-'] + p2), '-') == [p0, p1, p2]
  {
    DigitsAreDashFree(p0);
    DigitsAreDashFree(p2);
    var tail := p1 + ['-'] + p2;
    SegmentsCons(p1, '-', p2);
    SegmentsNoSep(p2, '-');
    SegmentsCons(p0, '-', tail);
    var full := p0 + ['-'] + tail;
    assert full[|p0|] == '-';
    var segs := Segments(full, '-');
    assert segs == [p0, p1, p2];
    assert DropTrailingEmpty(segs) == segs;
  }

  lemma DigitsAreDashFree(s: string)
    requires AllDigits(s)
    ensures '-' !in s
  {
  }

  /** "bytes=" alone is refused with 400: the split yields one empty piece. */
  lemma EmptyRangeRefused()
    ensures ParseRangeHeader(Some("bytes=" + "")) == Err(BadRequest)
  {
    BytesHeaderPieces("");
  }

  /** "bytes=-" is not caught as a format error: the split yields no piece at
      all, `ranges[0]` throws, and the request fails with 500. */
  lemma DashOnlyRangeFails()
    ensures ParseRangeHeader(Some("bytes=" + "-")) == Err(InternalServerError)
  {
    BytesHeaderPieces("-");
    assert "-" == "" + ['-'] + "";
    SegmentsCons("", '-', "");
  }

  function Min(a: int, b: int): int {
    if a <= b then a else b
  }

  /** An inclusive byte window [start, end] and whether a Range header
      asked for it. */
  datatype Window = Window(start: int, end: int, isPartial: bool) {
    function Length(): int {
      end - start + 1
    }
  }

  /** `getFileStream`'s resolution: the missing bounds default to the whole
      file, a given last byte is clamped to the file, and an empty or
      out-of-file window is refused with 416. */
  function StreamWindow(fileSize: int, header: Option<string>): (r: Result<Window>)
    ensures r.Ok? ==> 0 <= r.value.start <= r.value.end < fileSize
    ensures r.Ok? ==> 1 <= r.value.Length() <= fileSize
    ensures r.Ok? ==> r.value.isPartial == IsBytesHeader(header)
    ensures ParseRangeHeader(header).Err? ==> r == Err(ParseRangeHeader(header).error)
    ensures r.Err? && ParseRangeHeader(header).Ok? ==> r.error == RangeNotSatisfiable
  {
    match ParseRangeHeader(header)
    case Err(e) => Err(e)
    case Ok(spec) =>
      var start := if spec.Requested? then spec.first else 0;
      var end := if spec.Requested? && spec.last.Some? then Min(spec.last.value, fileSize - 1) else fileSize - 1;
      if start > end || start >= fileSize then Err(RangeNotSatisfiable)
      else Ok(Window(start, end, spec.Requested?))
  }

  /** Without a "bytes=" header the window is the whole file, not partial. */
  lemma NoRangeIsWholeFile(fileSize: int, header: Option<string>)
    requires !IsBytesHeader(header)
    ensures fileSize > 0 ==> StreamWindow(fileSize, header) == Ok(Window(0, fileSize - 1, false))
    ensures fileSize <= 0 ==> StreamWindow(fileSize, header) == Err(RangeNotSatisfiable)
  {
  }

  /** An empty file can never be streamed: end starts at -1, so every header
      the parser accepts ends in 416. */
  lemma EmptyFileUnsatisfiable(header: Option<string>)
    ensures StreamWindow(0, header).Err?
    ensures ParseRangeHeader(header).Ok? ==> StreamWindow(0, header) == Err(RangeNotSatisfiable)
  {
  }

  /** A well-formed header resolves to the window it names, its last byte
      clamped to the end of the file; a first byte at or past the end, or
      after the last byte, is refused. */
  lemma StreamWindowOfHeader(fileSize: int, first: nat, last: Option<nat>)
    requires first <= LongMax && (last.Some? ==> last.value <= LongMax)
    ensures var end := if last.Some? then Min(last.value, fileSize - 1) else fileSize - 1;
            StreamWindow(fileSize, Some(RangeHeader(first, last))) ==
              if first > end || first >= fileSize then Err(RangeNotSatisfiable)
              else Ok(Window(first, end, true))
  {
    ParseRangeHeaderRoundTrip(first, last);
    StreamWindowOfRange(fileSize, Some(RangeHeader(first, last)), first, last);
  }

  /** The window of any header that parses as the range first-last. */
  lemma StreamWindowOfRange(fileSize: int, header: Option<string>, first: nat, last: Option<nat>)
    requires ParseRangeHeader(header) == Ok(Requested(first, last))
    ensures var end := if last.Some? then Min(last.value, fileSize - 1) else fileSize - 1;
            StreamWindow(fileSize, header) ==
              if first > end || first >= fileSize then Err(RangeNotSatisfiable)
              else Ok(Window(first, end, true))
  {
  }

  /** `viewFileRange`'s resolution result: the window and the `long` content
      length it computes. */
  datatype RangeRead = RangeRead(start: int, end: int, contentLength: int)

  /** `viewFileRange`'s resolution: as `getFileStream`'s, but a given last
      byte is NOT clamped, and the content length is computed in 64-bit
      arithmetic. */
  function ViewWindow(fileSize: int, header: Option<string>): (r: Result<RangeRead>)
    ensures r.Ok? ==> 0 <= r.value.start <= r.value.end && r.value.start < fileSize
    ensures r.Ok? ==> r.value.contentLength == WrapLong(r.value.end - r.value.start + 1)
    ensures ParseRangeHeader(header).Err? ==> r == Err(ParseRangeHeader(header).error)
    ensures r.Err? && ParseRangeHeader(header).Ok? ==> r.error == RangeNotSatisfiable
  {
    match ParseRangeHeader(header)
    case Err(e) => Err(e)
    case Ok(spec) =>
      var start := if spec.Requested? then spec.first else 0;
      var end := if spec.Requested? && spec.last.Some? then spec.last.value else fileSize - 1;
      if start > end || start >= fileSize then Err(RangeNotSatisfiable)
      else Ok(RangeRead(start, end, WrapLong(end - start + 1)))
  }

  /** Inside the file the two resolutions agree, and the length does not
      wrap. */
  lemma ViewAgreesWithStreamInsideFile(fileSize: int, header: Option<string>)
    requires fileSize <= LongMax
    requires ParseRangeHeader(header).Ok?
    requires var spec := ParseRangeHeader(header).value;
             spec.Requested? && spec.last.Some? ==> spec.last.value < fileSize
    ensures StreamWindow(fileSize, header).Ok? <==> ViewWindow(fileSize, header).Ok?
    ensures StreamWindow(fileSize, header).Ok? ==>
              var w := StreamWindow(fileSize, header).value;
              ViewWindow(fileSize, header).value == RangeRead(w.start, w.end, w.Length())
  {
  }

  /** `viewFileRange` as written: a window longer than Long.MAX_VALUE
      passes the checks ("bytes=0-9223372036854775807" on any non-empty file)
      and its content length wraps to a negative `long`. */
  lemma ViewLengthOverflows(fileSize: int, first: nat, last: nat)
    requires first < fileSize && last <= LongMax && last - first >= LongMax
    ensures ViewWindow(fileSize, Some(RangeHeader(first, Some(last)))) == Ok(RangeRead(first, last, LongMin))
  {
    var header := Some(RangeHeader(first, Some(last)));
    ParseRangeHeaderRoundTrip(first, Some(last));
    ViewWindowOfRange(fileSize, header, first, last);
    assert last - first + 1 == LongMax + 1;
    LongMaxPlusOneWraps();
  }

  /** The unclamped window of any header that parses as first-last. */
  lemma ViewWindowOfRange(fileSize: int, header: Option<string>, first: nat, last: nat)
    requires ParseRangeHeader(header) == Ok(Requested(first, Some(last)))
    ensures ViewWindow(fileSize, header) ==
              if first > last || first >= fileSize then Err(RangeNotSatisfiable)
              else Ok(RangeRead(first, last, WrapLong(last - first + 1)))
  {
  }

  /** `getFileStream`, which clamps: a last byte at or past the end of the
      file is cut back to the file's last byte, so the window, and its
      length, stay inside the file (for "bytes=0-9223372036854775807", the
      whole file). */
  lemma StreamClampsLargeLast(fileSize: int, first: nat, last: nat)
    requires first < fileSize <= LongMax && fileSize <= last <= LongMax
    ensures StreamWindow(fileSize, Some(RangeHeader(first, Some(last)))) == Ok(Window(first, fileSize - 1, true))
    ensures StreamWindow(fileSize, Some(RangeHeader(first, Some(last)))).value.Length() == fileSize - first
  {
    StreamWindowOfHeader(fileSize, first, Some(last));
  }
}
