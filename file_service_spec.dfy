/** FileServiceImpl as functions of its two stores: the metadata repository
    (File rows keyed by file name) and the object store (payloads keyed by
    "folder/fileName"). Each operation returns its outcome together with
    the stores it leaves behind; the class in FileServiceImpl performs the
    same steps on its fields and is proved to match. Failures of the writes
    to the external stores and of the image encoder are explicit inputs;
    a read of an object that is present always succeeds. */
module FileServiceSpec {
  import opened Results
  import opened JavaText
  import opened CompressTable
  import opened Domain
  import opened RangeResolver

  datatype Stores = Stores(repository: map<string, FileRecord>, objects: map<string, Bytes>)

  /** An outcome and the stores after the operation. */
  datatype Step<T> = Step(result: Result<T>, stores: Stores)

  // ---------------------------------------------------------------------------
  // Intake: getValidFolder, the extension and the compression decision

  /** The content types the service accepts: any video type, any image type,
      and exactly `application/pdf`. */
  predicate SupportedType(ct: string) {
    StartsWith(ct, "video/") || StartsWith(ct, "image/") || ct == "application/pdf"
  }

  lemma SplitAtFolder(ct: string, f: string)
    requires StartsWith(ct, f + "/") && '/' !in f && f != ""
    ensures |Split(ct, '/')| >= 1 && Split(ct, '/')[0] == f
  {
    assert ct == f + ['/'] + ct[|f| + 1..];
    SplitFirst(f, '/', ct[|f| + 1..]);
  }

  /** The folder of a supported type, decided by its prefix; it is
      `contentType.split("/")[0]`, the text before the first '/'. */
  function FolderOf(ct: string): (folder: string)
    requires SupportedType(ct)
    ensures folder == "image" || folder == "video" || folder == "application"
    ensures '/' !in folder
    ensures StartsWith(ct, folder + "/")
    ensures |Split(ct, '/')| >= 1 && Split(ct, '/')[0] == folder
  {
    var f := if StartsWith(ct, "video/") then "video"
             else if StartsWith(ct, "image/") then "image"
             else "application";
    assert StartsWith(ct, f + "/");
    SplitAtFolder(ct, f);
    f
  }

  /** `getValidFolder`: 400 for a missing or unsupported content type,
      otherwise the folder named by the type. */
  function ValidFolder(contentType: Option<string>): (r: Result<string>)
    ensures r.Err? <==> contentType.None? || !SupportedType(contentType.value)
    ensures r.Err? ==> r.error == BadRequest
    ensures r.Ok? ==> r.value in {"image", "video", "application"}
    ensures r.Ok? ==> StartsWith(contentType.value, r.value + "/") && '/' !in r.value
  {
    if contentType.None? || !SupportedType(contentType.value) then Err(BadRequest)
    else Ok(FolderOf(contentType.value))
  }

  /** The upload as the service receives it: the multipart file (bytes,
      declared content type, original file name, possibly null) and the
      request parameters the four-argument `uploadSingleFile` takes. */
  datatype UploadRequest = UploadRequest(
    data: Bytes,
    contentType: Option<string>,
    originalFilename: Option<string>,
    compress: bool,
    level: CompressLevel,
    fileType: FileType)

  /** What intake decides before anything is written. */
  datatype Intake = Intake(contentType: string, folder: string, extension: string, compress: bool)

  /** Validation (400 before any store is touched), then the extension of
      the original file name (a null name fails `Objects.requireNonNull`:
      500), then the compression decision: only images, never webp. */
  function CheckUpload(req: UploadRequest, extractExtension: string -> string): (r: Result<Intake>)
    ensures r.Err? <==> ValidFolder(req.contentType).Err? || req.originalFilename.None?
    ensures ValidFolder(req.contentType).Err? ==> r == Err(BadRequest)
    ensures r.Err? && ValidFolder(req.contentType).Ok? ==> r.error == InternalServerError
    ensures r.Ok? ==> r.value.contentType == req.contentType.value && r.value.folder == ValidFolder(req.contentType).value
    ensures r.Ok? ==> r.value.extension == extractExtension(req.originalFilename.value)
    ensures r.Ok? ==> (r.value.compress <==> req.compress && StartsWith(r.value.contentType, "image/") && r.value.extension != "webp")
    ensures r.Ok? && r.value.compress ==> r.value.folder == "image"
  {
    match ValidFolder(req.contentType)
    case Err(e) => Err(e)
    case Ok(folder) =>
      if req.originalFilename.None? then Err(InternalServerError)
      else
        var ct := req.contentType.value;
        var extension := extractExtension(req.originalFilename.value);
        var compress := req.compress && !(!StartsWith(ct, "image/") || extension == "webp");
        Ok(Intake(ct, folder, extension, compress))
  }

  // ---------------------------------------------------------------------------
  // Storing an upload

  /** The image encoder: the bytes and the quality in tenths give the
      re-encoded bytes, or None when decoding or encoding fails. */
  type Encoder = (Bytes, nat) -> Option<Bytes>

  /** Which external write fails during an upload: reading the upload or
      the object-store put, or the repository save. */
  datatype UploadFaults = UploadFaults(putFails: bool, saveFails: bool)

  /** The stored file name: the allocated identifier, a dot, the original
      extension. */
  function StoredName(stem: string, extension: string): string {
    stem + "." + extension
  }

  /** The object-store path of a file. */
  function ObjectKey(folder: string, fileName: string): string {
    folder + "/" + fileName
  }

  /** Paths of files with different names differ, as long as folders hold
      no '/'. */
  lemma ObjectKeysDiffer(f1: string, n1: string, f2: string, n2: string)
    requires '/' !in f1 && '/' !in f2 && n1 != n2
    ensures ObjectKey(f1, n1) != ObjectKey(f2, n2)
  {
    var k1, k2 := ObjectKey(f1, n1), ObjectKey(f2, n2);
    if |f1| < |f2| {
      assert k1[|f1|] != k2[|f1|];
    } else if |f2| < |f1| {
      assert k1[|f2|] != k2[|f2|];
    } else if f1 != f2 {
      var i :| 0 <= i < |f1| && f1[i] != f2[i];
      assert k1[i] != k2[i];
    } else {
      assert k1[|f1| + 1..] == n1 && k2[|f1| + 1..] == n2;
    }
  }

  /** `uploadSingleFile` after intake and name allocation: encode when
      compression applies (the size becomes the encoded length), put the
      object, then save the record. Any encoder or put failure is 500 with
      nothing written; a failed save is 500 with the object already put. */
  function StoreUpload(config: Config, st: Stores, intake: Intake, req: UploadRequest, stem: string,
                       encoder: Encoder, faults: UploadFaults): (step: Step<FileResponse>)
    ensures step.result.Err? ==> step.result.error == InternalServerError
    ensures step.result.Err? <==>
              faults.putFails || faults.saveFails || (intake.compress && encoder(req.data, QualityTenths(req.level)).None?)
  {
    var fileName := StoredName(stem, intake.extension);
    var key := ObjectKey(intake.folder, fileName);
    var payload := if intake.compress then encoder(req.data, QualityTenths(req.level)) else Some(req.data);
    if payload.None? || faults.putFails then Step(Err(InternalServerError), st)
    else
      var objects := st.objects[key := payload.value];
      var record := FileRecord(fileName, intake.contentType, intake.folder, |payload.value|,
                               intake.extension, NONE, req.fileType);
      if faults.saveFails then Step(Err(InternalServerError), Stores(st.repository, objects))
      else Step(Ok(RecordResponse(config, record)), Stores(st.repository[fileName := record], objects))
  }

  /** The whole four-argument `uploadSingleFile`, for a given allocated
      identifier `stem`. */
  function Upload(config: Config, st: Stores, req: UploadRequest, extractExtension: string -> string,
                  stem: string, encoder: Encoder, faults: UploadFaults): (step: Step<FileResponse>)
    ensures CheckUpload(req, extractExtension).Err? ==> step == Step(Err(CheckUpload(req, extractExtension).error), st)
    ensures step.result.Err? && CheckUpload(req, extractExtension).Ok? ==> step.result.error == InternalServerError
  {
    match CheckUpload(req, extractExtension)
    case Err(e) => Step(Err(e), st)
    case Ok(intake) => StoreUpload(config, st, intake, req, stem, encoder, faults)
  }

  /** The allocated identifier gives a name the repository does not hold. */
  predicate FreshStem(st: Stores, req: UploadRequest, extractExtension: string -> string, stem: string) {
    CheckUpload(req, extractExtension).Ok? ==>
      StoredName(stem, CheckUpload(req, extractExtension).value.extension) !in st.repository
  }

  // ---------------------------------------------------------------------------
  // The invariant the two stores keep

  /** The record is keyed by its own name, and its object is at the
      record's path with exactly the recorded size. */
  predicate Backed(st: Stores, name: string)
    requires name in st.repository
  {
    var rec := st.repository[name];
    && rec.fileName == name
    && ObjectKey(rec.folder, name) in st.objects
    && |st.objects[ObjectKey(rec.folder, name)]| == rec.fileSize
  }

  /** A record is backed by its object, has a supported type and is filed
      under the folder of that type. */
  predicate Stored(st: Stores, name: string)
    requires name in st.repository
  {
    var rec := st.repository[name];
    && Backed(st, name)
    && SupportedType(rec.contentType)
    && rec.folder == FolderOf(rec.contentType)
  }

  /** Every metadata row references an object that exists: no dangling
      records. (Objects without a record, orphans, are allowed.) */
  predicate Consistent(st: Stores) {
    forall name :: name in st.repository ==> Stored(st, name)
  }

  /** The object behind a record of consistent stores, and its size. */
  lemma StoredObject(st: Stores, name: string)
    requires Consistent(st) && name in st.repository
    ensures Backed(st, name)
  {
    assert Stored(st, name);
  }

  /** Every record is filed under its own name. */
  predicate KeyedByName(st: Stores) {
    forall name :: name in st.repository ==> st.repository[name].fileName == name
  }

  /** Consistent stores file every record under its own name. */
  lemma ConsistentIsKeyed(st: Stores)
    requires Consistent(st)
    ensures KeyedByName(st)
  {
    forall name | name in st.repository
      ensures st.repository[name].fileName == name
    {
      StoredObject(st, name);
    }
  }

  /** A write at the path of a name the repository does not hold leaves
      every record stored. */
  lemma PutKeepsStored(st: Stores, folder: string, fileName: string, payload: Bytes)
    requires Consistent(st) && fileName !in st.repository && '/' !in folder
    ensures Consistent(Stores(st.repository, st.objects[ObjectKey(folder, fileName) := payload]))
  {
    var st' := Stores(st.repository, st.objects[ObjectKey(folder, fileName) := payload]);
    forall n | n in st'.repository
      ensures Stored(st', n)
    {
      assert Stored(st, n);
      ObjectKeysDiffer(st.repository[n].folder, n, folder, fileName);
    }
  }

  // ---------------------------------------------------------------------------
  // Properties of upload

  /** An unsupported or missing content type is refused with 400 and
      nothing is written to either store. */
  lemma UploadRejectsUnsupportedType(config: Config, st: Stores, req: UploadRequest, extractExtension: string -> string,
                                     stem: string, encoder: Encoder, faults: UploadFaults)
    requires req.contentType.None? || !SupportedType(req.contentType.value)
    ensures Upload(config, st, req, extractExtension, stem, encoder, faults) == Step(Err(BadRequest), st)
  {
  }

  /** A failed upload never adds a record; when it fails before the put
      (intake, encoder, put) no object is written either. Every failure
      after intake (encoder, put, save) is 500. */
  lemma UploadFailureAddsNoRecord(config: Config, st: Stores, req: UploadRequest, extractExtension: string -> string,
                                  stem: string, encoder: Encoder, faults: UploadFaults)
    ensures var step := Upload(config, st, req, extractExtension, stem, encoder, faults);
            step.result.Err? ==> step.stores.repository == st.repository
    ensures var step := Upload(config, st, req, extractExtension, stem, encoder, faults);
            (step.result.Err? && !(CheckUpload(req, extractExtension).Ok? && !faults.putFails
                                   && (CheckUpload(req, extractExtension).value.compress ==>
                                         encoder(req.data, QualityTenths(req.level)).Some?)))
              ==> step.stores == st
    ensures var step := Upload(config, st, req, extractExtension, stem, encoder, faults);
            step.result.Err? && CheckUpload(req, extractExtension).Ok? ==> step.result.error == InternalServerError
  {
  }

  /** A successful upload adds exactly one record, under a name that was
      free, with the original extension, compress level NONE and a size equal
      to the stored payload: the upload's own bytes when not compressed, the
      encoder's output otherwise. The record carries the declared content
      type and the requested file type, the object store changes only at the
      new record's path, and the response describes that record. */
  lemma UploadStoresOneRecord(config: Config, st: Stores, req: UploadRequest, extractExtension: string -> string,
                              stem: string, encoder: Encoder, faults: UploadFaults)
    requires FreshStem(st, req, extractExtension, stem)
    requires Upload(config, st, req, extractExtension, stem, encoder, faults).result.Ok?
    ensures var step := Upload(config, st, req, extractExtension, stem, encoder, faults);
            var intake := CheckUpload(req, extractExtension).value;
            var name := step.result.value.name;
            && CheckUpload(req, extractExtension).Ok?
            && name == StoredName(stem, intake.extension) && name !in st.repository
            && step.stores.repository.Keys == st.repository.Keys + {name}
            && (forall n :: n in st.repository ==> step.stores.repository[n] == st.repository[n])
            && var rec := step.stores.repository[name];
               && rec.extension == extractExtension(req.originalFilename.value)
               && rec.folder == intake.folder
               && rec.compressLevel == NONE
               && ObjectKey(rec.folder, name) in step.stores.objects
               && var payload := step.stores.objects[ObjectKey(rec.folder, name)];
                  && rec.fileSize == |payload|
                  && payload == (if intake.compress then encoder(req.data, QualityTenths(req.level)).value else req.data)
                  && step.result.value == RecordResponse(config, rec)
    ensures var step := Upload(config, st, req, extractExtension, stem, encoder, faults);
            var name := step.result.value.name;
            var rec := step.stores.repository[name];
            && rec.contentType == req.contentType.value
            && rec.fileType == req.fileType
            && step.stores.objects == st.objects[ObjectKey(rec.folder, name) := step.stores.objects[ObjectKey(rec.folder, name)]]
  {
  }

  /** Upload keeps every record backed by its object. */
  lemma UploadPreservesConsistent(config: Config, st: Stores, req: UploadRequest, extractExtension: string -> string,
                                  stem: string, encoder: Encoder, faults: UploadFaults)
    requires Consistent(st) && FreshStem(st, req, extractExtension, stem)
    ensures Consistent(Upload(config, st, req, extractExtension, stem, encoder, faults).stores)
  {
    var ci := CheckUpload(req, extractExtension);
    var step := Upload(config, st, req, extractExtension, stem, encoder, faults);
    if ci.Ok? && step.stores != st {
      var intake := ci.value;
      var name := StoredName(stem, intake.extension);
      var key := ObjectKey(intake.folder, name);
      var payload := step.stores.objects[key];
      PutKeepsStored(st, intake.folder, name, payload);
      var mid := Stores(st.repository, st.objects[key := payload]);
      assert step.stores.objects == mid.objects;
      if step.result.Ok? {
        var st' := step.stores;
        forall n | n in st'.repository
          ensures Stored(st', n)
        {
          if n != name {
            assert Stored(mid, n);
          }
        }
      }
    }
  }

  // ---------------------------------------------------------------------------
  // Lookups: getContentType, loadFileByName, downloadFileByName

  /** `getContentType`: 404 for an unknown name. */
  function ContentTypeOf(st: Stores, fileName: string): (r: Result<string>)
    ensures r.Err? <==> fileName !in st.repository
    ensures r.Err? ==> r.error == NotFound
    ensures r.Ok? ==> r.value == st.repository[fileName].contentType
  {
    if fileName in st.repository then Ok(st.repository[fileName].contentType) else Err(NotFound)
  }

  /** `loadFileByName`: the name, its content type, the extension taken from
      the name, and the view link; no size and no type. The 404 of
      `getContentType` is thrown inside the method's catch-all and comes out
      as 500. */
  function LoadFileByName(config: Config, st: Stores, fileName: string, extractExtension: string -> string): (r: Result<FileResponse>)
    ensures r.Err? <==> fileName !in st.repository
    ensures r.Err? ==> r.error == InternalServerError
    ensures r.Ok? ==> r.value.name == fileName && r.value.uri == ViewUri(config, fileName)
    ensures r.Ok? ==> r.value.contentType == Some(st.repository[fileName].contentType)
    ensures r.Ok? ==> r.value.extension == extractExtension(fileName) && r.value.size.None? && r.value.fileType.None?
  {
    match ContentTypeOf(st, fileName)
    case Err(_) => Err(InternalServerError)
    case Ok(ct) => Ok(FileResponse(fileName, Some(ct), extractExtension(fileName), ViewUri(config, fileName), None, None))
  }

  /** `downloadFileByName` up to the object read: the folder is taken from
      the content type again, and any failure, the 404 of an unknown name
      included, comes out of the catch-all as 500. */
  function DownloadFileByName(st: Stores, fileName: string): (r: Result<Bytes>)
    ensures fileName !in st.repository ==> r == Err(InternalServerError)
    ensures r.Err? ==> r.error == InternalServerError
  {
    match ContentTypeOf(st, fileName)
    case Err(_) => Err(InternalServerError)
    case Ok(ct) =>
      var parts := Split(ct, '/');
      if |parts| == 0 then Err(InternalServerError)
      else
        var key := parts[0] + "/" + fileName;
        if key in st.objects then Ok(st.objects[key]) else Err(InternalServerError)
  }

  /** On consistent stores a known name downloads exactly its stored object. */
  lemma DownloadReturnsStoredObject(st: Stores, fileName: string)
    requires Consistent(st) && fileName in st.repository
    ensures var rec := st.repository[fileName];
            DownloadFileByName(st, fileName) == Ok(st.objects[ObjectKey(rec.folder, fileName)])
  {
    var rec := st.repository[fileName];
    assert Stored(st, fileName);
    assert Split(rec.contentType, '/')[0] + "/" + fileName == ObjectKey(rec.folder, fileName);
  }

  /** Uploading without compression and then downloading returns the
      uploaded bytes unchanged. */
  lemma UploadThenDownload(config: Config, st: Stores, req: UploadRequest, extractExtension: string -> string,
                           stem: string, encoder: Encoder, faults: UploadFaults)
    requires Consistent(st) && FreshStem(st, req, extractExtension, stem)
    requires !req.compress
    requires Upload(config, st, req, extractExtension, stem, encoder, faults).result.Ok?
    ensures var step := Upload(config, st, req, extractExtension, stem, encoder, faults);
            DownloadFileByName(step.stores, step.result.value.name) == Ok(req.data)
  {
    var step := Upload(config, st, req, extractExtension, stem, encoder, faults);
    UploadStoresOneRecord(config, st, req, extractExtension, stem, encoder, faults);
    UploadPreservesConsistent(config, st, req, extractExtension, stem, encoder, faults);
    DownloadReturnsStoredObject(step.stores, step.result.value.name);
  }

  // ---------------------------------------------------------------------------
  // Streaming: getFileStream and viewFileRange

  /** `getFileStream`: 404 for an unknown name, then the range resolution,
      then a read of exactly the window from the record's object. */
  function GetFileStream(st: Stores, fileName: string, header: Option<string>): (r: Result<FileStreamResponse>)
    ensures fileName !in st.repository ==> r == Err(NotFound)
    ensures r.Ok? ==> fileName in st.repository
    ensures r.Ok? ==> 0 <= r.value.start <= r.value.end < r.value.fileSize
    ensures r.Ok? ==> |r.value.resource| == r.value.end - r.value.start + 1
    ensures r.Ok? ==> r.value.isPartial == IsBytesHeader(header)
    ensures r.Ok? ==> r.value.fileSize == st.repository[fileName].fileSize
                      && r.value.contentType == st.repository[fileName].contentType
    ensures fileName in st.repository && StreamWindow(st.repository[fileName].fileSize, header).Err? ==>
              r == Err(StreamWindow(st.repository[fileName].fileSize, header).error)
  {
    if fileName !in st.repository then Err(NotFound)
    else
      var rec := st.repository[fileName];
      var path := ObjectKey(rec.folder, rec.fileName);
      match StreamWindow(rec.fileSize, header)
      case Err(e) => Err(e)
      case Ok(w) =>
        if path !in st.objects || |st.objects[path]| < w.end + 1 then Err(InternalServerError)
        else Ok(FileStreamResponse(st.objects[path][w.start..w.end + 1], rec.contentType, rec.fileSize,
                                   w.start, w.end, w.isPartial))
  }

  /** For a record backed by its object, the stream carries exactly the
      window's bytes of the stored object (a read of a present object does
      not fail in this model). */
  lemma StreamServesStoredBytes(st: Stores, fileName: string, header: Option<string>)
    requires fileName in st.repository && Backed(st, fileName)
    requires StreamWindow(st.repository[fileName].fileSize, header).Ok?
    ensures var rec := st.repository[fileName];
            var w := StreamWindow(rec.fileSize, header).value;
            GetFileStream(st, fileName, header) ==
              Ok(FileStreamResponse(st.objects[ObjectKey(rec.folder, fileName)][w.start..w.end + 1],
                                    rec.contentType, rec.fileSize, w.start, w.end, w.isPartial))
  {
  }

  /** Range correctness: "bytes=<first>-<last>" with first <= last inside
      the file serves exactly those bytes of the stored object, ends
      included. */
  lemma StreamClosedRange(st: Stores, fileName: string, first: nat, last: nat)
    requires fileName in st.repository && Backed(st, fileName)
    requires first <= last < st.repository[fileName].fileSize <= LongMax
    ensures var rec := st.repository[fileName];
            var r := GetFileStream(st, fileName, Some(RangeHeader(first, Some(last))));
            r.Ok? && r.value.resource == st.objects[ObjectKey(rec.folder, fileName)][first..last + 1]
  {
    var rec := st.repository[fileName];
    var header := Some(RangeHeader(first, Some(last)));
    assert StreamWindow(rec.fileSize, header) == Ok(Window(first, last, true)) by {
      StreamWindowOfHeader(rec.fileSize, first, Some(last));
    }
    StreamServesStoredBytes(st, fileName, header);
  }

  /** A header whose window runs from first to the file's last byte serves
      the stored object from first to its end, as partial content. */
  lemma StreamOfOpenWindow(st: Stores, fileName: string, header: Option<string>, first: nat)
    requires fileName in st.repository && Backed(st, fileName)
    requires StreamWindow(st.repository[fileName].fileSize, header) ==
               Ok(Window(first, st.repository[fileName].fileSize - 1, true))
    ensures var rec := st.repository[fileName];
            GetFileStream(st, fileName, header) ==
              Ok(FileStreamResponse(st.objects[ObjectKey(rec.folder, fileName)][first..],
                                    rec.contentType, rec.fileSize, first, rec.fileSize - 1, true))
  {
    var rec := st.repository[fileName];
    var bytes := st.objects[ObjectKey(rec.folder, fileName)];
    StreamServesStoredBytes(st, fileName, header);
    assert bytes[first..rec.fileSize - 1 + 1] == bytes[first..];
  }

  /** Range correctness: "bytes=<first>-" with first inside the file serves
      the stored object from first to its end. */
  lemma StreamOpenRange(st: Stores, fileName: string, first: nat)
    requires fileName in st.repository && Backed(st, fileName)
    requires first < st.repository[fileName].fileSize <= LongMax
    ensures var rec := st.repository[fileName];
            var r := GetFileStream(st, fileName, Some(RangeHeader(first, None)));
            r.Ok? && r.value.resource == st.objects[ObjectKey(rec.folder, fileName)][first..]
  {
    var header := Some(RangeHeader(first, None));
    ParseRangeHeaderRoundTrip(first, None);
    StreamWindowOfRange(st.repository[fileName].fileSize, header, first, None);
    StreamOfOpenWindow(st, fileName, header, first);
  }

  /** The read `viewFileRange` asks the object store for. */
  datatype StoreRead = StoreRead(objectPath: string, offset: int, length: int)

  /** `viewFileRange`: 404 for an unknown name, then the unclamped
      resolution, then the ranged read from the record's object; a missing
      object makes `getFile` throw, which is 500. The result is the read it
      issues. */
  function ViewFileRange(st: Stores, fileName: string, header: Option<string>): (r: Result<StoreRead>)
    ensures fileName !in st.repository ==> r == Err(NotFound)
    ensures r.Ok? ==> fileName in st.repository && 0 <= r.value.offset < st.repository[fileName].fileSize
    ensures r.Ok? ==> r.value.objectPath == ObjectKey(st.repository[fileName].folder, st.repository[fileName].fileName)
    ensures r.Ok? ==> r.value.objectPath in st.objects
    ensures fileName in st.repository ==>
              (r.Ok? <==> ViewWindow(st.repository[fileName].fileSize, header).Ok?
                          && ObjectKey(st.repository[fileName].folder, st.repository[fileName].fileName) in st.objects)
    ensures fileName in st.repository && ViewWindow(st.repository[fileName].fileSize, header).Err? ==>
              r == Err(ViewWindow(st.repository[fileName].fileSize, header).error)
    ensures fileName in st.repository && ViewWindow(st.repository[fileName].fileSize, header).Ok? && r.Err? ==>
              r == Err(InternalServerError)
    ensures r.Ok? ==> var w := ViewWindow(st.repository[fileName].fileSize, header).value;
                      r.value.offset == w.start && r.value.length == w.contentLength
  {
    if fileName !in st.repository then Err(NotFound)
    else
      var rec := st.repository[fileName];
      var path := ObjectKey(rec.folder, rec.fileName);
      match ViewWindow(rec.fileSize, header)
      case Err(e) => Err(e)
      case Ok(rr) => if path in st.objects then Ok(StoreRead(path, rr.start, rr.contentLength)) else Err(InternalServerError)
  }

  // ---------------------------------------------------------------------------
  // Delete

  /** Which external call fails during a delete: the repository delete or
      the object-store delete. */
  datatype DeleteFault = NoFault | RepositoryFault | StoreFault

  /** `deleteFileByName`: 404 for an unknown name; otherwise the record is
      deleted first, then the object; a failure of either is 500, and a
      failure of the second leaves the object behind without its record. */
  function DeleteByName(st: Stores, fileName: string, fault: DeleteFault): Step<()>
  {
    if fileName !in st.repository then Step(Err(NotFound), st)
    else
      var rec := st.repository[fileName];
      var key := ObjectKey(rec.folder, fileName);
      if fault == RepositoryFault then Step(Err(InternalServerError), st)
      else
        var repository := st.repository - {fileName};
        if fault == StoreFault then Step(Err(InternalServerError), Stores(repository, st.objects))
        else Step(Ok(()), Stores(repository, st.objects - {key}))
  }

  /** An unknown name is 404 and changes nothing; a known one is removed
      from the repository unless the repository delete itself fails; its
      object goes too when nothing fails, and every failure after the
      lookup is 500. */
  lemma DeleteOutcome(st: Stores, fileName: string, fault: DeleteFault)
    ensures var step := DeleteByName(st, fileName, fault);
            && (fileName !in st.repository ==> step == Step(Err(NotFound), st))
            && (fileName in st.repository && fault != NoFault ==> step.result == Err(InternalServerError))
            && (fileName in st.repository && fault == RepositoryFault ==> step == Step(Err(InternalServerError), st))
            && (fileName in st.repository && fault != RepositoryFault ==>
                  step.stores.repository == st.repository - {fileName})
            && (fileName in st.repository && fault == NoFault ==>
                  step.result.Ok? &&
                  step.stores.objects == st.objects - {ObjectKey(st.repository[fileName].folder, fileName)})
            && (step.result.Err? ==> step.stores.objects == st.objects)
  {
  }

  /** Deleting keeps every remaining record backed by its object. */
  lemma DeletePreservesConsistent(st: Stores, fileName: string, fault: DeleteFault)
    requires Consistent(st)
    ensures Consistent(DeleteByName(st, fileName, fault).stores)
  {
    var st' := DeleteByName(st, fileName, fault).stores;
    if fileName in st.repository && fault != RepositoryFault {
      assert Stored(st, fileName);
      forall n | n in st'.repository
        ensures Stored(st', n)
      {
        assert n in st.repository && n != fileName;
        assert Stored(st, n);
        ObjectKeysDiffer(st.repository[n].folder, n, st.repository[fileName].folder, fileName);
      }
    }
  }

  /** After a successful delete the name is gone everywhere: deleting it
      again is 404, streaming it is 404, downloading it fails. */
  lemma DeleteIsComplete(st: Stores, fileName: string, fault: DeleteFault, again: DeleteFault, header: Option<string>)
    requires DeleteByName(st, fileName, fault).result.Ok?
    ensures var st' := DeleteByName(st, fileName, fault).stores;
            && fileName !in st'.repository
            && DeleteByName(st', fileName, again) == Step(Err(NotFound), st')
            && GetFileStream(st', fileName, header) == Err(NotFound)
            && DownloadFileByName(st', fileName).Err?
  {
  }

  /** The fault of the i-th delete of a batch (none past the given list). */
  function FaultAt(faults: seq<DeleteFault>, i: nat): DeleteFault {
    if i < |faults| then faults[i] else NoFault
  }

  function Later(faults: seq<DeleteFault>): seq<DeleteFault> {
    if |faults| > 0 then faults[1..] else []
  }

  /** `delete`: the names in list order, stopping at the first failure,
      whose error becomes the batch's. */
  function DeleteAll(st: Stores, names: seq<string>, faults: seq<DeleteFault>): Step<()>
    decreases |names|
  {
    if names == [] then Step(Ok(()), st)
    else
      var first := DeleteByName(st, names[0], FaultAt(faults, 0));
      if first.result.Err? then first
      else DeleteAll(first.stores, names[1..], Later(faults))
  }

  /** One more name in a batch whose earlier deletes all succeeded is one
      more single delete. */
  lemma {:induction false} DeleteAllSnoc(st: Stores, names: seq<string>, faults: seq<DeleteFault>, i: nat)
    requires i < |names| && DeleteAll(st, names[..i], faults).result.Ok?
    ensures DeleteAll(st, names[..i + 1], faults) ==
            DeleteByName(DeleteAll(st, names[..i], faults).stores, names[i], FaultAt(faults, i))
    decreases i
  {
    var first := DeleteByName(st, names[0], FaultAt(faults, 0));
    if i == 0 {
      assert names[..1] == [names[0]];
      assert names[..1][1..] == [];
    } else {
      assert names[..i][0] == names[0] && names[..i][1..] == names[1..][..i - 1];
      assert names[..i + 1][0] == names[0] && names[..i + 1][1..] == names[1..][..i];
      assert FaultAt(Later(faults), i - 1) == FaultAt(faults, i);
      DeleteAllSnoc(first.stores, names[1..], Later(faults), i - 1);
    }
  }

  /** Once a prefix of the batch fails, the rest of the batch is never
      attempted. */
  lemma {:induction false} DeleteAllPrefixFails(st: Stores, names: seq<string>, faults: seq<DeleteFault>, j: nat)
    requires j <= |names| && DeleteAll(st, names[..j], faults).result.Err?
    ensures DeleteAll(st, names, faults) == DeleteAll(st, names[..j], faults)
    decreases j
  {
    assert names[..j][0] == names[0];
    var first := DeleteByName(st, names[0], FaultAt(faults, 0));
    if first.result.Ok? {
      assert names[..j][1..] == names[1..][..j - 1];
      DeleteAllPrefixFails(first.stores, names[1..], Later(faults), j - 1);
    }
  }

  /** A batch that fails did the deletes before the first failing one, and
      its result and stores are those of that failing delete: nothing after
      it is touched. */
  lemma {:induction false} DeleteAllStopsAtFirstFailure(st: Stores, names: seq<string>, faults: seq<DeleteFault>)
    requires DeleteAll(st, names, faults).result.Err?
    ensures exists k :: 0 <= k < |names| && DeleteAll(st, names[..k], faults).result.Ok? &&
              DeleteAll(st, names, faults) ==
                DeleteByName(DeleteAll(st, names[..k], faults).stores, names[k], FaultAt(faults, k))
    decreases |names|
  {
    var first := DeleteByName(st, names[0], FaultAt(faults, 0));
    if first.result.Err? {
      assert names[..0] == [];
    } else {
      DeleteAllStopsAtFirstFailure(first.stores, names[1..], Later(faults));
      var k :| 0 <= k < |names[1..]| && DeleteAll(first.stores, names[1..][..k], Later(faults)).result.Ok? &&
                DeleteAll(first.stores, names[1..], Later(faults)) ==
                  DeleteByName(DeleteAll(first.stores, names[1..][..k], Later(faults)).stores, names[1..][k],
                               FaultAt(Later(faults), k));
      assert names[..k + 1][0] == names[0] && names[..k + 1][1..] == names[1..][..k];
      assert DeleteAll(st, names[..k + 1], faults) == DeleteAll(first.stores, names[1..][..k], Later(faults));
      assert FaultAt(Later(faults), k) == FaultAt(faults, k + 1);
    }
  }

  /** A batch that succeeds named only known files, each once, and removed
      exactly them. */
  lemma {:induction false} DeleteAllRemovesExactly(st: Stores, names: seq<string>, faults: seq<DeleteFault>)
    requires DeleteAll(st, names, faults).result.Ok?
    ensures var st' := DeleteAll(st, names, faults).stores;
            && (forall i :: 0 <= i < |names| ==> names[i] in st.repository && names[i] !in st'.repository)
            && (forall i, j :: 0 <= i < j < |names| ==> names[i] != names[j])
            && (forall n :: n in st.repository && n !in names ==> n in st'.repository && st'.repository[n] == st.repository[n])
            && st'.repository.Keys <= st.repository.Keys
    decreases |names|
  {
    if names != [] {
      var first := DeleteByName(st, names[0], FaultAt(faults, 0));
      DeleteAllRemovesExactly(first.stores, names[1..], Later(faults));
      var st' := DeleteAll(st, names, faults).stores;
      forall i | 0 <= i < |names|
        ensures names[i] in st.repository && names[i] !in st'.repository
      {
        if i > 0 {
          assert names[i] == names[1..][i - 1];
        }
      }
      forall i, j | 0 <= i < j < |names|
        ensures names[i] != names[j]
      {
        if i > 0 {
          assert names[i] == names[1..][i - 1] && names[j] == names[1..][j - 1];
        } else {
          assert names[j] == names[1..][j - 1];
        }
      }
      forall n | n in st.repository && n !in names
        ensures n in st'.repository && st'.repository[n] == st.repository[n]
      {
        assert n !in names[1..];
      }
    }
  }

  /** The object paths of the listed names that have a record. */
  function DeletedKeys(repository: map<string, FileRecord>, names: seq<string>): set<string>
    decreases |names|
  {
    if names == [] then {}
    else if names[0] in repository then {ObjectKey(repository[names[0]].folder, names[0])} + DeletedKeys(repository, names[1..])
    else DeletedKeys(repository, names[1..])
  }

  /** Dropping a record that is not listed does not change the paths of the
      listed ones. */
  lemma {:induction false} DeletedKeysWithout(repository: map<string, FileRecord>, gone: string, names: seq<string>)
    requires gone !in names
    ensures DeletedKeys(repository - {gone}, names) == DeletedKeys(repository, names)
    decreases |names|
  {
    if names != [] {
      assert names[0] != gone;
      assert gone !in names[1..];
      DeletedKeysWithout(repository, gone, names[1..]);
    }
  }

  /** A successful batch removes exactly the objects of the listed names,
      and no other object. */
  lemma {:induction false} DeleteAllRemovesObjects(st: Stores, names: seq<string>, faults: seq<DeleteFault>)
    requires DeleteAll(st, names, faults).result.Ok?
    ensures DeleteAll(st, names, faults).stores.objects == st.objects - DeletedKeys(st.repository, names)
    decreases |names|
  {
    if names != [] {
      DeleteAllRemovesExactly(st, names, faults);
      var first := DeleteByName(st, names[0], FaultAt(faults, 0));
      var key := ObjectKey(st.repository[names[0]].folder, names[0]);
      assert first.stores == Stores(st.repository - {names[0]}, st.objects - {key});
      DeleteAllRemovesObjects(first.stores, names[1..], Later(faults));
      assert names[0] !in names[1..] by {
        forall j | 0 <= j < |names[1..]|
          ensures names[1..][j] != names[0]
        {
          assert names[1..][j] == names[j + 1];
        }
      }
      DeletedKeysWithout(st.repository, names[0], names[1..]);
    }
  }

  /** A batch keeps every remaining record backed by its object, however it
      ends. */
  lemma {:induction false} DeleteAllPreservesConsistent(st: Stores, names: seq<string>, faults: seq<DeleteFault>)
    requires Consistent(st)
    ensures Consistent(DeleteAll(st, names, faults).stores)
    decreases |names|
  {
    if names != [] {
      DeletePreservesConsistent(st, names[0], FaultAt(faults, 0));
      var first := DeleteByName(st, names[0], FaultAt(faults, 0));
      if first.result.Ok? {
        DeleteAllPreservesConsistent(first.stores, names[1..], Later(faults));
      }
    }
  }
}
