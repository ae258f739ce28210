/** FileController: how the service's results become HTTP responses. The
    controller keeps no state; its endpoints are functions of the stores and
    the request. */
module FileController {
  import opened Results
  import opened JavaText
  import opened CompressTable
  import opened Presets
  import opened Domain
  import opened RangeResolver
  import opened FileServiceSpec

  /** The parts of a response the controller sets. */
  datatype HttpResponse = HttpResponse(
    status: int,
    contentType: Option<string>,
    contentLength: Option<int>,
    contentRange: Option<string>,
    acceptRanges: Option<string>,
    contentDisposition: Option<string>,
    body: Bytes)

  // ---------------------------------------------------------------------------
  // viewByFileName

  /** The Content-Range value "bytes <first>-<last>/<complete>" of section
      4.2 of RFC 7233, with the numbers written as Java writes a `long`. */
  function ContentRange(start: int, end: int, size: int): string {
    "bytes " + LongToString(start) + "-" + LongToString(end) + "/" + LongToString(size)
  }

  /** Shapes a stream: 200 with the full size as Content-Length when the
      request had no byte range; otherwise 206 with Content-Range,
      Accept-Ranges and the window's length as Content-Length. */
  function ShapeStream(s: FileStreamResponse): (r: HttpResponse)
    ensures r.body == s.resource && r.contentType == Some(s.contentType) && r.contentDisposition.None?
    ensures r.status == (if s.isPartial then 206 else 200)
    ensures !s.isPartial ==> r.contentLength == Some(s.fileSize) && r.contentRange.None? && r.acceptRanges.None?
    ensures s.isPartial ==> r.acceptRanges == Some("bytes") && r.contentRange == Some(ContentRange(s.start, s.end, s.fileSize))
    ensures s.isPartial ==> r.contentLength == Some(WrapLong(s.end - s.start + 1))
  {
    if !s.isPartial then
      HttpResponse(200, Some(s.contentType), Some(s.fileSize), None, None, None, s.resource)
    else
      HttpResponse(206, Some(s.contentType), Some(WrapLong(s.end - s.start + 1)),
                   Some(ContentRange(s.start, s.end, s.fileSize)), Some("bytes"), None, s.resource)
  }

  /** GET /view/{fileName}: the service's stream, shaped; its errors are the
      response's status. */
  function ViewByFileName(st: Stores, fileName: string, header: Option<string>): (r: Result<HttpResponse>)
    ensures r.Ok? <==> GetFileStream(st, fileName, header).Ok?
    ensures r.Err? ==> r.error == GetFileStream(st, fileName, header).error
  {
    match GetFileStream(st, fileName, header)
    case Err(e) => Err(e)
    case Ok(s) => Ok(ShapeStream(s))
  }

  /** The position of the first `c` in `s`, or -1. */
  function IndexOf(s: string, c: char): (i: int)
    ensures -1 <= i < |s|
    ensures i >= 0 ==> s[i] == c && c !in s[..i]
    ensures i < 0 ==> c !in s
    decreases |s|
  {
    if |s| == 0 then -1
    else if s[0] == c then 0
    else
      var j := IndexOf(s[1..], c);
      if j < 0 then -1
      else
        assert s[..j + 1] == [s[0]] + s[1..][..j];
        j + 1
  }

  lemma IndexOfAfter(a: string, c: char, b: string)
    requires c !in a
    ensures IndexOf(a + [c] + b, c) == |a|
  {
    var s := a + [c] + b;
    assert s[|a|] == c;
    assert forall j :: 0 <= j < |a| ==> s[j] == a[j];
    assert forall j :: |a| < j <= |s| ==> s[..j][|a|] == c;
  }

  /** A non-empty run of ASCII digits. */
  predicate IsNumber(s: string) {
    s != "" && AllDigits(s)
  }

  /** A reader for Content-Range values "bytes <first>-<last>/<complete>",
      independent of how the controller writes them. */
  function ReadContentRange(v: string): Option<(nat, nat, nat)> {
    if !StartsWith(v, "bytes ") then None else ReadSpan(v[6..])
  }

  /** "<first>-<last>/<complete>". */
  function ReadSpan(rest: string): Option<(nat, nat, nat)> {
    var dash := IndexOf(rest, '-');
    if dash < 0 || !IsNumber(rest[..dash]) then None
    else
      match ReadLastAndSize(rest[dash + 1..])
      case None => None
      case Some((last, complete)) => Some((DigitsValue(rest[..dash]), last, complete))
  }

  /** "<last>/<complete>". */
  function ReadLastAndSize(tail: string): Option<(nat, nat)> {
    var slash := IndexOf(tail, '/');
    if slash < 0 then None
    else
      var last, complete := tail[..slash], tail[slash + 1..];
      if IsNumber(last) && IsNumber(complete) then Some((DigitsValue(last), DigitsValue(complete))) else None
  }

  lemma NumberHasNo(s: string, c: char)
    requires IsNumber(s) && !IsDigit(c)
    ensures c !in s
  {
    assert forall i :: 0 <= i < |s| ==> IsDigit(s[i]);
  }

  lemma ReadLastAndSizeOf(b: string, c: string)
    requires IsNumber(b) && IsNumber(c)
    ensures ReadLastAndSize(b + ['/'] + c) == Some((DigitsValue(b), DigitsValue(c)))
  {
    var tail := b + ['/'] + c;
    NumberHasNo(b, '/');
    IndexOfAfter(b, '/', c);
    assert tail[..|b|] == b && tail[|b| + 1..] == c;
  }

  lemma ReadSpanOf(a: string, b: string, c: string)
    requires IsNumber(a) && IsNumber(b) && IsNumber(c)
    ensures ReadSpan(a + ['-'] + (b + ['/'] + c)) == Some((DigitsValue(a), DigitsValue(b), DigitsValue(c)))
  {
    var rest := a + ['-'] + (b + ['/'] + c);
    NumberHasNo(a, '-');
    IndexOfAfter(a, '-', b + ['/'] + c);
    assert rest[..|a|] == a && rest[|a| + 1..] == b + ['/'] + c;
    ReadLastAndSizeOf(b, c);
  }

  /** The reader takes "bytes <a>-<b>/<c>" apart at its separators. */
  lemma ReadContentRangeOf(a: string, b: string, c: string)
    requires IsNumber(a) && IsNumber(b) && IsNumber(c)
    ensures ReadContentRange("bytes " + a + "-" + b + "/" + c) == Some((DigitsValue(a), DigitsValue(b), DigitsValue(c)))
  {
    var v := "bytes " + a + "-" + b + "/" + c;
    assert v[..6] == "bytes ";
    assert v[6..] == a + ['-'] + (b + ['/'] + c);
    ReadSpanOf(a, b, c);
  }

  /** Every Content-Range the controller writes for a window inside a file
      reads back as that window and the file's size. */
  lemma ContentRangeReadsBack(start: nat, end: nat, size: nat)
    ensures ReadContentRange(ContentRange(start, end, size)) == Some((start, end, size))
  {
    ReadContentRangeOf(Decimal(start), Decimal(end), Decimal(size));
    DecimalValue(start);
    DecimalValue(end);
    DecimalValue(size);
  }

  /** Without a byte range the response is 200 and its Content-Length is
      the number of bytes in its body: the whole stored object. */
  lemma FullViewLengthIsBodyLength(st: Stores, fileName: string, header: Option<string>)
    requires fileName in st.repository && Backed(st, fileName)
    requires !IsBytesHeader(header)
    requires ViewByFileName(st, fileName, header).Ok?
    ensures var r := ViewByFileName(st, fileName, header).value;
            var rec := st.repository[fileName];
            && r.status == 200
            && r.body == st.objects[ObjectKey(rec.folder, fileName)]
            && r.contentLength == Some(|r.body|)
  {
    var rec := st.repository[fileName];
    NoRangeIsWholeFile(rec.fileSize, header);
    StreamServesStoredBytes(st, fileName, header);
    var bytes := st.objects[ObjectKey(rec.folder, fileName)];
    assert bytes[0..rec.fileSize - 1 + 1] == bytes;
  }

  /** With a byte range the response is 206 with Accept-Ranges; its
      Content-Range reads back as the served window and the full size, and
      the window lies inside the file. */
  lemma PartialViewIsConsistent(st: Stores, fileName: string, header: Option<string>)
    requires IsBytesHeader(header)
    requires ViewByFileName(st, fileName, header).Ok?
    requires fileName in st.repository && st.repository[fileName].fileSize <= LongMax
    ensures var s := GetFileStream(st, fileName, header).value;
            var r := ViewByFileName(st, fileName, header).value;
            && r.status == 206
            && r.acceptRanges == Some("bytes")
            && r.contentRange.Some?
            && ReadContentRange(r.contentRange.value) == Some((s.start, s.end, s.fileSize))
            && 0 <= s.start <= s.end < s.fileSize == st.repository[fileName].fileSize
  {
    var s := GetFileStream(st, fileName, header).value;
    ViewShapesStream(st, fileName, header);
    ShapedRangeReadsBack(s);
  }

  /** A partial stream is shaped with a Content-Range that reads back as
      its window and size. */
  lemma ShapedRangeReadsBack(s: FileStreamResponse)
    requires s.isPartial && 0 <= s.start <= s.end < s.fileSize
    ensures var r := ShapeStream(s);
            r.contentRange.Some? && ReadContentRange(r.contentRange.value) == Some((s.start, s.end, s.fileSize))
  {
    ContentRangeReadsBack(s.start, s.end, s.fileSize);
  }

  /** With a byte range the Content-Length is the number of bytes in the
      body, which is the window's length. */
  lemma PartialViewLength(st: Stores, fileName: string, header: Option<string>)
    requires IsBytesHeader(header)
    requires ViewByFileName(st, fileName, header).Ok?
    requires fileName in st.repository && st.repository[fileName].fileSize <= LongMax
    ensures var s := GetFileStream(st, fileName, header).value;
            var r := ViewByFileName(st, fileName, header).value;
            && r.contentLength == Some(|r.body|)
            && |r.body| == s.end - s.start + 1
  {
    ViewShapesStream(st, fileName, header);
    ShapedLength(GetFileStream(st, fileName, header).value);
  }

  /** A partial stream of a `long`-sized file is shaped with its body length
      as Content-Length: the window's length never wraps. */
  lemma ShapedLength(s: FileStreamResponse)
    requires s.isPartial && 0 <= s.start <= s.end < s.fileSize <= LongMax
    requires |s.resource| == s.end - s.start + 1
    ensures ShapeStream(s).contentLength == Some(|s.resource|)
  {
  }

  /** Any "bytes=" header gives 206, even one that covers the whole file: a
      header that reads as "bytes=<first>-" (`RangeHeader(first, None)` is
      one) serves the object from first on as partial content, all of it
      for first = 0. */
  lemma OpenRangeIsPartial(st: Stores, fileName: string, header: Option<string>, first: nat)
    requires fileName in st.repository && Backed(st, fileName)
    requires ParseRangeHeader(header) == Ok(Requested(first, None))
    requires first < st.repository[fileName].fileSize
    ensures var rec := st.repository[fileName];
            var bytes := st.objects[ObjectKey(rec.folder, fileName)];
            var r := ViewByFileName(st, fileName, header);
            && r.Ok? && r.value.status == 206
            && r.value.body == bytes[first..]
            && r.value.contentRange == Some(ContentRange(first, rec.fileSize - 1, rec.fileSize))
  {
    var size := st.repository[fileName].fileSize;
    StreamWindowOfRange(size, header, first, None);
    StreamOfOpenWindow(st, fileName, header, first);
    ViewShapesStream(st, fileName, header);
    var s := GetFileStream(st, fileName, header).value;
    assert s.start == first && s.end == size - 1 && s.fileSize == size && s.isPartial;
    assert ViewByFileName(st, fileName, header).value.contentRange == Some(ContentRange(s.start, s.end, s.fileSize));
  }

  /** A stream the service serves is the view's response, shaped. */
  lemma ViewShapesStream(st: Stores, fileName: string, header: Option<string>)
    requires GetFileStream(st, fileName, header).Ok?
    ensures ViewByFileName(st, fileName, header) == Ok(ShapeStream(GetFileStream(st, fileName, header).value))
  {
  }

  // ---------------------------------------------------------------------------
  // downloadFileByName and getBackground

  const AttachmentPrefix := "attachment; filename="

  /** GET /download/{fileName}: the stored object as an attachment named
      after the requested name (unquoted); the media type is the one the
      endpoint declares it produces. */
  function DownloadByFileName(st: Stores, fileName: string): (r: Result<HttpResponse>)
    ensures r.Err? <==> DownloadFileByName(st, fileName).Err?
    ensures r.Err? ==> r.error == InternalServerError
    ensures r.Ok? ==> r.value.status == 200 && r.value.body == DownloadFileByName(st, fileName).value
    ensures r.Ok? ==> r.value.contentDisposition == Some(AttachmentPrefix + fileName)
  {
    match DownloadFileByName(st, fileName)
    case Err(e) => Err(e)
    case Ok(bytes) =>
      Ok(HttpResponse(200, Some("application/octet-stream"), None, None, None, Some(AttachmentPrefix + fileName), bytes))
  }

  /** The file name a Content-Disposition value carries, read back: after
      "attachment; filename=", or between the quotes of
      `inline; filename="..."`. */
  function DispositionFileName(v: string): Option<string> {
    if StartsWith(v, AttachmentPrefix) then Some(v[|AttachmentPrefix|..])
    else if StartsWith(v, InlinePrefix) && |v| > |InlinePrefix| && v[|v| - 1] == '"'
            && '"' !in v[|InlinePrefix|..|v| - 1]
    then Some(v[|InlinePrefix|..|v| - 1])
    else None
  }

  /** A downloaded file is named after the request and carries exactly the
      stored object. */
  lemma DownloadNamesTheFile(st: Stores, fileName: string)
    requires Consistent(st) && fileName in st.repository
    ensures var r := DownloadByFileName(st, fileName);
            var rec := st.repository[fileName];
            && r.Ok? && r.value.body == st.objects[ObjectKey(rec.folder, fileName)]
            && r.value.contentDisposition.Some?
            && DispositionFileName(r.value.contentDisposition.value) == Some(fileName)
  {
    DownloadReturnsStoredObject(st, fileName);
    var v := AttachmentPrefix + fileName;
    assert v[..|AttachmentPrefix|] == AttachmentPrefix && v[|AttachmentPrefix|..] == fileName;
  }

  const InlinePrefix := "inline; filename=\""

  /** `FileViewResponse`: the record `getBackground` picked and its bytes. */
  datatype FileViewResponse = FileViewResponse(fileName: string, fileSize: int, contentType: string, stream: Bytes)

  /** GET /background: the picked file shown inline, its name quoted. */
  function ShapeBackground(v: FileViewResponse): (r: HttpResponse)
    ensures r.status == 200 && r.body == v.stream && r.contentType == Some(v.contentType)
    ensures r.contentDisposition == Some(InlinePrefix + v.fileName + "\"")
  {
    HttpResponse(200, Some(v.contentType), None, None, None, Some(InlinePrefix + v.fileName + "\""), v.stream)
  }

  /** The inline disposition reads back as the file's name whenever the name
      holds no quote; a name with a quote does not survive the quoting. */
  lemma BackgroundNamesTheFile(v: FileViewResponse)
    ensures var d := ShapeBackground(v).contentDisposition.value;
            '"' !in v.fileName <==> DispositionFileName(d) == Some(v.fileName)
  {
    var d := InlinePrefix + v.fileName + "\"";
    assert !StartsWith(d, AttachmentPrefix) by {
      if |AttachmentPrefix| <= |d| {
        assert d[..|AttachmentPrefix|][0] != AttachmentPrefix[0];
      }
    }
    assert d[..|InlinePrefix|] == InlinePrefix;
    assert d[|InlinePrefix|..|d| - 1] == v.fileName;
  }

  // ---------------------------------------------------------------------------
  // uploadFile

  /** The multipart part as received: bytes, declared type, original name. */
  datatype MultipartFile = MultipartFile(data: Bytes, contentType: Option<string>, originalFilename: Option<string>)

  /** The request parameters of POST /files; an absent parameter is None. */
  datatype UploadQuery = UploadQuery(
    compress: Option<bool>,
    level: Option<CompressLevel>,
    fileType: Option<FileType>,
    resize: Option<ResizePreset>,
    w: Option<int>,
    h: Option<int>)

  /** The parameters with their defaults filled in. */
  datatype UploadParams = UploadParams(compress: bool, level: CompressLevel, fileType: FileType,
                                       resize: ResizePreset, w: int, h: int)

  function OrElse<T>(o: Option<T>, default: T): T {
    if o.Some? then o.value else default
  }

  /** The declared defaults: no compression, level LOW, type DEFAULT,
      preset ORIGINAL, width and height 0. */
  function WithDefaults(q: UploadQuery): (p: UploadParams)
    ensures q == UploadQuery(None, None, None, None, None, None) ==>
              p == UploadParams(false, LOW, DefaultFileType, ORIGINAL, 0, 0)
    ensures p.compress == (q.compress.Some? && q.compress.value)
    ensures p.level == (if q.level.Some? then q.level.value else LOW)
    ensures p.fileType == (if q.fileType.Some? then q.fileType.value else DefaultFileType)
    ensures p.resize == (if q.resize.Some? then q.resize.value else ORIGINAL)
    ensures p.w == (if q.w.Some? then q.w.value else 0)
    ensures p.h == (if q.h.Some? then q.h.value else 0)
  {
    UploadParams(OrElse(q.compress, false), OrElse(q.level, LOW), OrElse(q.fileType, DefaultFileType),
                 OrElse(q.resize, ORIGINAL), OrElse(q.w, 0), OrElse(q.h, 0))
  }

  /** The query that gives every parameter explicitly. */
  function GivenQuery(p: UploadParams): UploadQuery {
    UploadQuery(Some(p.compress), Some(p.level), Some(p.fileType), Some(p.resize), Some(p.w), Some(p.h))
  }

  /** Parameters that are all given are kept as they are: defaulting never
      overrides a value the client sent. */
  lemma GivenParamsKept(p: UploadParams)
    ensures WithDefaults(GivenQuery(p)) == p
  {
  }

  /** What reaches the four-argument upload: the part, compress, level and
      type; the resize parameters have no implementation to reach. */
  function ServiceRequest(file: MultipartFile, p: UploadParams): (req: UploadRequest)
    ensures req.data == file.data && req.contentType == file.contentType && req.originalFilename == file.originalFilename
    ensures req.compress == p.compress && req.level == p.level && req.fileType == p.fileType
  {
    UploadRequest(file.data, file.contentType, file.originalFilename, p.compress, p.level, p.fileType)
  }

  const Created := 201

  /** POST /files: 201 with the service's response, or the service's error. */
  function UploadFile(config: Config, st: Stores, file: MultipartFile, q: UploadQuery,
                      extractExtension: string -> string, stem: string, encoder: Encoder,
                      faults: UploadFaults): (r: (int, Step<FileResponse>))
    ensures r.1 == Upload(config, st, ServiceRequest(file, WithDefaults(q)), extractExtension, stem, encoder, faults)
    ensures r.0 == (if r.1.result.Ok? then Created else r.1.result.error.Status())
  {
    var step := Upload(config, st, ServiceRequest(file, WithDefaults(q)), extractExtension, stem, encoder, faults);
    (if step.result.Ok? then Created else step.result.error.Status(), step)
  }

  /** With every parameter left at its default nothing is compressed: a
      successful upload answers 201, records the part's own size, and the
      file downloads as the uploaded bytes. */
  lemma DefaultUploadKeepsBytes(config: Config, st: Stores, file: MultipartFile,
                                extractExtension: string -> string, stem: string, encoder: Encoder,
                                faults: UploadFaults)
    requires Consistent(st)
    requires FreshStem(st, ServiceRequest(file, WithDefaults(UploadQuery(None, None, None, None, None, None))),
                       extractExtension, stem)
    requires UploadFile(config, st, file, UploadQuery(None, None, None, None, None, None), extractExtension,
                        stem, encoder, faults).1.result.Ok?
    ensures var (status, step) := UploadFile(config, st, file, UploadQuery(None, None, None, None, None, None),
                                             extractExtension, stem, encoder, faults);
            && status == Created
            && step.result.value.size == Some(|file.data|)
            && step.result.value.fileType == Some(DefaultFileType)
            && DownloadFileByName(step.stores, step.result.value.name) == Ok(file.data)
  {
    var req := ServiceRequest(file, WithDefaults(UploadQuery(None, None, None, None, None, None)));
    UploadStoresOneRecord(config, st, req, extractExtension, stem, encoder, faults);
    UploadThenDownload(config, st, req, extractExtension, stem, encoder, faults);
  }
}
