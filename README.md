# Media file service — Dafny model

This project models the core of a Spring media service that stores uploaded
files. It keeps the bytes of each file in an object store, under
`<folder>/<fileName>`, and one metadata row per file in a repository, keyed
by the file name. The service:

- accepts video, image and PDF uploads, optionally re-encoding images at a
  chosen quality;
- gives every file a fresh name, `<uuid>.<extension>`;
- lists, looks up, downloads and deletes files;
- serves files with HTTP byte ranges (`Range: bytes=<start>-<end>`).

The model is split into modules, one per concern:

- `Results`: the outcome of an operation, and the HTTP status of each error.
- `JavaText`: the Java library behaviour the service depends on:
  - `String.split` with one separator character, including the dropping of
    trailing empty pieces;
  - `Long.parseLong` and `Long.toString`;
  - `long` wrap-around.
- `CompressTable` and `Presets`: the compression-quality table and the
  resize-preset table. Quality is kept in exact tenths.
- `Domain`: the `File` entity and the response records.
- `RangeResolver`: parsing of the Range header and window resolution, as
  pure functions of the file size and the header. There are two versions:
  the clamping one of `getFileStream` and the unclamped one of
  `viewFileRange`.
- `FileServiceSpec`: each service operation as a function of the two
  stores. It also holds the invariant the stores keep (every record is
  backed by an object of the recorded size) and the lemmas about
  operations, including:
  - consistency preservation;
  - the upload/download round trip;
  - range correctness;
  - delete completeness;
  - batch-delete ordering.
- `FileServiceImpl`: the service as a class. The repository and the object
  store are `map` fields that upload and delete update in place. It
  contains:
  - the UUID retry loop;
  - the batch-delete loop;
  - the listing loop.

  The state-changing methods (`UploadSingleFile`, `DeleteFileByName`,
  `Delete`) are proved to produce the outcome and state that
  `FileServiceSpec` describes. The name allocation and the listing are
  specified directly: a free name, every record exactly once, one response
  per record.
- `FileController`: how the controller shapes responses:
  - 200 vs 206 for streaming;
  - the `Content-Range` value of section 4.2 of RFC 7233, proved to read
    back;
  - the `Content-Disposition` values;
  - the upload parameter defaults.

External systems are modelled as follows:

- The object store and the repository are the two maps.
- Failures of their writes are explicit fault parameters (`UploadFaults`,
  `DeleteFault`).
- Reads of an object that is present always succeed. `getFileStream` and
  `downloadFileByName` return exactly the requested bytes, and fail with
  500 only when the object is missing (or, for `getFileStream`, shorter
  than the window). `viewFileRange` fails with 500 when the object is
  missing, and otherwise returns the ranged read it issues.
- The image encoder is a function parameter (`Encoder`) that may fail.
- `UUID.randomUUID()` is a nondeterministic choice.
- `MediaUtil.extractExtension` is a function the service is constructed
  with. MediaUtil is not part of this model.

The code does the following, where one might expect otherwise, and the
model does the same:

- Upload never sets `compressLevel`, so every record keeps the entity
  default `NONE`, not the level that was applied.
- `loadFileByName` and `downloadFileByName` call `getContentType` inside a
  catch-all. An unknown name therefore gives 500, not 404.
- The full-file (200) stream response carries no `Accept-Ranges` header.
- `File.java` declares no `type` field, yet upload calls `setType`. The
  record keeps a `fileType` field so the upload's type is stored and
  returned.

## Model

| member | source | states |
|---|---|---|
| JavaText.Split | src/main/java/com/setec/resource/feature/file/FileServiceImpl.java:284 | pieces never contain the separator; no separator gives the input as the one piece; otherwise the result is a prefix of the full list of pieces, every piece dropped is empty and the last piece kept is not |
| JavaText.JoinSegments | src/main/java/com/setec/resource/feature/file/FileServiceImpl.java:284 | splitting loses nothing: the pieces joined with the separator give the input back |
| JavaText.ParseLong | src/main/java/com/setec/resource/feature/file/FileServiceImpl.java:286-288 | a value exactly for an optional sign followed by at least one digit whose value fits in a `long`, and then that value; the empty string, a stray character and an overflow throw |
| JavaText.LongToString | src/main/java/com/setec/resource/feature/file/FileController.java:115 | `String.valueOf` of a `long`: '-' and the decimal magnitude for a negative value; `ParseLongToString` proves it reads back |
| JavaText.ParseLongToString | src/main/java/com/setec/resource/feature/file/FileServiceImpl.java:286-288 | `Long.parseLong(Long.toString(i)) == i` for every `long` |
| CompressTable.QualityTenths | src/main/java/com/setec/resource/util/FileCompressUtil.java:7-22 | the quality lies in (0, 1]; it is exactly 1 for the levels that do not compress (NONE) |
| CompressTable.QualityTable | src/main/java/com/setec/resource/util/FileCompressUtil.java:8-21 | LOW 0.8, MEDIUM 0.6, HIGH 0.4, EXTREME 0.2, ULTRA 0.1, NONE 1 |
| CompressTable.QualityFallsAlongLadder | src/main/java/com/setec/resource/util/FileCompressUtil.java:8-18 | quality strictly falls along LOW, MEDIUM, HIGH, EXTREME, ULTRA |
| Presets.PresetTable | src/main/java/com/setec/resource/domain/ResizePreset.java:10-14 | CUSTOM (-1,-1), ORIGINAL (0,0), CARD 400x400, BACKGROUND 1920x1080, THUMBNAIL 150x150 |
| Presets.PositiveExactlyForFixedSizes | src/main/java/com/setec/resource/domain/ResizePreset.java:10-14 | width and height are both positive exactly for CARD, BACKGROUND and THUMBNAIL |
| Domain.ViewUri | src/main/java/com/setec/resource/feature/file/FileServiceImpl.java:129 | the view link ends with the file name |
| Domain.RecordResponse | src/main/java/com/setec/resource/feature/file/FileServiceImpl.java:160-167 | the response carries the record's name, content type, extension, size and type, and its view link |
| RangeResolver.ParseRangeHeader | src/main/java/com/setec/resource/feature/file/FileServiceImpl.java:283-293 | a range is requested exactly for a `bytes=` header; only such a header can fail, with 400 or 500; parsed bounds lie in [0, Long.MAX_VALUE] |
| RangeResolver.ParseRangeHeaderRoundTrip | src/main/java/com/setec/resource/feature/file/FileServiceImpl.java:283-289 | `bytes=<first>-<last>` and `bytes=<first>-` parse back as the bounds they were written from |
| RangeResolver.SuffixRangeRefused | src/main/java/com/setec/resource/feature/file/FileServiceImpl.java:284-291 | a suffix range `bytes=-<n>` is refused with 400 |
| RangeResolver.OverflowingBoundRefused | src/main/java/com/setec/resource/feature/file/FileServiceImpl.java:334-341 | `bytes=<first>-<last>` or `bytes=<first>-` with a bound past Long.MAX_VALUE is refused with 400 |
| RangeResolver.RangeListRefused | src/main/java/com/setec/resource/feature/file/FileServiceImpl.java:284-291 | a range list such as `bytes=0-5,9-10` is refused with 400 |
| RangeResolver.EmptyRangeRefused | src/main/java/com/setec/resource/feature/file/FileServiceImpl.java:284-291 | `bytes=` is refused with 400 |
| RangeResolver.ThirdPieceIgnored | src/main/java/com/setec/resource/feature/file/FileServiceImpl.java:284-289 | pieces after the second are ignored: `bytes=<a>-<b>-<c>` is read as the range a-b |
| RangeResolver.DashOnlyRangeFails | src/main/java/com/setec/resource/feature/file/FileServiceImpl.java:284-286 | `bytes=-` splits into no pieces; reading the first one is an uncaught index error, 500 |
| RangeResolver.StreamWindow | src/main/java/com/setec/resource/feature/file/FileServiceImpl.java:327-346 | a window satisfies 0 <= start <= end < size with length end-start+1 in [1, size]; partial exactly for a `bytes=` header; a header that fails to parse keeps its error (400, or 500 for `bytes=-`); a parsed header that fails gets 416 |
| RangeResolver.NoRangeIsWholeFile | src/main/java/com/setec/resource/feature/file/FileServiceImpl.java:327-333 | no `bytes=` header gives the whole file [0, size-1], not partial; an empty file gets 416 |
| RangeResolver.EmptyFileUnsatisfiable | src/main/java/com/setec/resource/feature/file/FileServiceImpl.java:328-346 | a size-0 file never streams; with a well-formed header it gets 416 |
| RangeResolver.StreamWindowOfHeader | src/main/java/com/setec/resource/feature/file/FileServiceImpl.java:332-346 | the window of `bytes=<first>-<last>` is [first, min(last, size-1)]; it is 416 when first lies beyond that end or beyond the file |
| RangeResolver.ViewWindow | src/main/java/com/setec/resource/feature/file/FileServiceImpl.java:279-299 | a satisfiable window starts inside the file with start <= end; the content length is end-start+1 computed in `long` arithmetic; a header that fails to parse keeps its error (400 or 500); a parsed header that fails gets 416 |
| RangeResolver.ViewAgreesWithStreamInsideFile | src/main/java/com/setec/resource/feature/file/FileServiceImpl.java:279-299 | for ranges ending inside the file, viewFileRange and getFileStream accept the same headers and resolve the same window |
| RangeResolver.ViewLengthOverflows | src/main/java/com/setec/resource/feature/file/FileServiceImpl.java:288-299 | `bytes=0-9223372036854775807` gives viewFileRange a negative content length (Long.MIN_VALUE) |
| RangeResolver.StreamClampsLargeLast | src/main/java/com/setec/resource/feature/file/FileServiceImpl.java:338 | for any first byte inside the file, an end at or beyond the file is clamped to size-1 by getFileStream, so the window runs from first to the file's end and its length is size-first |
| FileServiceSpec.FolderOf | src/main/java/com/setec/resource/feature/file/FileServiceImpl.java:267 | the folder of a supported type is image, video or application, and is `split("/")[0]`, the text before the first '/' |
| FileServiceSpec.ValidFolder | src/main/java/com/setec/resource/feature/file/FileServiceImpl.java:259-268 | 400 exactly for a null type or one that is not video/*, image/* or application/pdf; otherwise the slash-free folder the type starts with |
| FileServiceSpec.CheckUpload | src/main/java/com/setec/resource/feature/file/FileServiceImpl.java:57-69 | 400 for an unsupported type, before anything else; 500 for a null original name; compression exactly for compress requested on an image/* that is not webp; the extension is the original one |
| FileServiceSpec.ObjectKeysDiffer | src/main/java/com/setec/resource/feature/file/FileServiceImpl.java:76 | files with different names have different object paths |
| FileServiceSpec.StoreUpload | src/main/java/com/setec/resource/feature/file/FileServiceImpl.java:71-131 | encode when compressing, put, save: it fails exactly when the encoder, the put or the save fails, and every such failure is 500; the stores' side is specified by UploadFailureAddsNoRecord, UploadStoresOneRecord and UploadPreservesConsistent |
| FileServiceSpec.Upload | src/main/java/com/setec/resource/feature/file/FileServiceImpl.java:55-131 | an intake failure is returned as it is (400, or 500 for a null name) with both stores unchanged; every failure after intake is 500; the rest is specified by UploadRejectsUnsupportedType, UploadFailureAddsNoRecord, UploadStoresOneRecord, UploadPreservesConsistent and UploadThenDownload |
| FileServiceSpec.UploadRejectsUnsupportedType | src/main/java/com/setec/resource/feature/file/FileServiceImpl.java:58 | an unsupported or missing content type gives 400 with both stores unchanged |
| FileServiceSpec.UploadFailureAddsNoRecord | src/main/java/com/setec/resource/feature/file/FileServiceImpl.java:80-120 | a failed upload adds no record; a failure before the put (intake, encoder, put) writes no object either; every failure after intake (encoder, put, save) is 500 |
| FileServiceSpec.UploadStoresOneRecord | src/main/java/com/setec/resource/feature/file/FileServiceImpl.java:71-131 | success adds exactly one record, under the fresh name `<uuid>.<ext>`, and leaves the other records as they were. The record has the declared content type, the requested file type, the original extension, compress level NONE, and a size equal to the stored payload (the upload's bytes, or the encoder's output when compressing). The object store changes only at the new record's path. The response describes that record |
| FileServiceSpec.UploadPreservesConsistent | src/main/java/com/setec/resource/feature/file/FileServiceImpl.java:90-120 | since the object is put before the record is saved, every record stays backed by an object of its size, whatever fails |
| FileServiceSpec.ContentTypeOf | src/main/java/com/setec/resource/feature/file/FileServiceImpl.java:254-257 | 404 exactly for an unknown name; otherwise the recorded content type |
| FileServiceSpec.LoadFileByName | src/main/java/com/setec/resource/feature/file/FileServiceImpl.java:188-204 | 500 exactly for an unknown name; otherwise name, type, extension and link, with no size and no type |
| FileServiceSpec.DownloadFileByName | src/main/java/com/setec/resource/feature/file/FileServiceImpl.java:229-251 | every failure, an unknown name included, is 500 |
| FileServiceSpec.DownloadReturnsStoredObject | src/main/java/com/setec/resource/feature/file/FileServiceImpl.java:232-238 | on consistent stores a known name downloads exactly its object, although the folder is re-derived from the content type |
| FileServiceSpec.UploadThenDownload | src/main/java/com/setec/resource/feature/file/FileServiceImpl.java:90-120 | uploading without compression and then downloading returns the uploaded bytes |
| FileServiceSpec.GetFileStream | src/main/java/com/setec/resource/feature/file/FileServiceImpl.java:320-367 | 404 for an unknown name; for a known one a failed window resolution comes out as its own error (400, 416, or 500 for `bytes=-`). A stream carries a window inside the file with exactly end-start+1 bytes, the record's type and size, and is partial exactly for a `bytes=` header |
| FileServiceSpec.StreamServesStoredBytes | src/main/java/com/setec/resource/feature/file/FileServiceImpl.java:349-362 | for a record whose object is at its path with the recorded size, a resolved window is served with exactly those bytes of the object (reads of a present object do not fail in this model) |
| FileServiceSpec.StoredObject | src/main/java/com/setec/resource/feature/file/FileServiceImpl.java:349-362 | on consistent stores every record's object is at the record's path with the recorded size, so the stream's window always lies inside the object |
| FileServiceSpec.ConsistentIsKeyed | src/main/java/com/setec/resource/feature/file/FileServiceImpl.java:106-119 | on consistent stores every record is filed under its own name |
| FileServiceSpec.StreamClosedRange | src/main/java/com/setec/resource/feature/file/FileServiceImpl.java:332-352 | for a record backed by its object, `bytes=<first>-<last>` inside the file serves exactly bytes first..last of the object |
| FileServiceSpec.StreamOpenRange | src/main/java/com/setec/resource/feature/file/FileServiceImpl.java:327-352 | for a record backed by its object, `bytes=<first>-` serves the object from first to its end |
| FileServiceSpec.ViewFileRange | src/main/java/com/setec/resource/feature/file/FileServiceImpl.java:271-317 | 404 for an unknown name; for a known one, a failed unclamped resolution comes out as its own error (400, 416 or 500), and a missing object is 500; otherwise the read at the record's object path, with the window's start as offset and its `long` content length as length |
| FileServiceSpec.DeleteByName | src/main/java/com/setec/resource/feature/file/FileServiceImpl.java:207-225 | lookup, record delete, object delete; specified by DeleteOutcome, DeletePreservesConsistent and DeleteIsComplete |
| FileServiceSpec.DeleteOutcome | src/main/java/com/setec/resource/feature/file/FileServiceImpl.java:208-225 | an unknown name gives 404 with no change. A failed repository delete gives 500 and changes nothing. Otherwise the record is removed; the object goes too when nothing fails; every failure after the lookup is 500 |
| FileServiceSpec.DeletePreservesConsistent | src/main/java/com/setec/resource/feature/file/FileServiceImpl.java:214-220 | since the record is removed before the object, no remaining record loses its object |
| FileServiceSpec.DeleteIsComplete | src/main/java/com/setec/resource/feature/file/FileServiceImpl.java:210-220 | after a successful delete the name is gone: deleting again and streaming give 404, downloading fails |
| FileServiceSpec.DeleteAll | src/main/java/com/setec/resource/feature/file/FileServiceImpl.java:174-179 | the deletes in list order up to the first failure; specified by DeleteAllSnoc, DeleteAllPrefixFails, DeleteAllStopsAtFirstFailure, DeleteAllRemovesExactly and DeleteAllPreservesConsistent |
| FileServiceSpec.DeleteAllSnoc | src/main/java/com/setec/resource/feature/file/FileServiceImpl.java:176-178 | while earlier deletes succeed, each request is one more single delete |
| FileServiceSpec.DeleteAllPrefixFails | src/main/java/com/setec/resource/feature/file/FileServiceImpl.java:176-178 | once a prefix of the batch fails, the rest is never attempted |
| FileServiceSpec.DeleteAllStopsAtFirstFailure | src/main/java/com/setec/resource/feature/file/FileServiceImpl.java:176-178 | a failed batch ends with its first failing delete, applied after all earlier deletes succeeded |
| FileServiceSpec.DeleteAllRemovesExactly | src/main/java/com/setec/resource/feature/file/FileServiceImpl.java:176-178 | a successful batch named only known files, each once, and removed exactly them |
| FileServiceSpec.DeleteAllRemovesObjects | src/main/java/com/setec/resource/feature/file/FileServiceImpl.java:176-178 | a successful batch removes from the object store exactly the objects of the listed records, and no other object |
| FileServiceSpec.DeleteAllPreservesConsistent | src/main/java/com/setec/resource/feature/file/FileServiceImpl.java:176-178 | a batch keeps every remaining record backed by its object, however it ends |
| FileServiceImpl.FileService.DrawUuid | src/main/java/com/setec/resource/feature/file/FileServiceImpl.java:73 | an identifier not drawn before in this allocation |
| FileServiceImpl.FileService.AllocateName | src/main/java/com/setec/resource/feature/file/FileServiceImpl.java:71-74 | the retry loop ends, and only with a stem whose `<stem>.<ext>` names no record |
| FileServiceImpl.FileService.UploadSingleFile | src/main/java/com/setec/resource/feature/file/FileServiceImpl.java:55-131 | the outcome and new stores are those of `FileServiceSpec.Upload` for a fresh identifier; consistency is kept |
| FileServiceImpl.FileService.DeleteFileByName | src/main/java/com/setec/resource/feature/file/FileServiceImpl.java:207-225 | the outcome and new stores are those of `FileServiceSpec.DeleteByName`; consistency is kept |
| FileServiceImpl.FileService.Delete | src/main/java/com/setec/resource/feature/file/FileServiceImpl.java:174-179 | the loop's outcome and stores are those of `FileServiceSpec.DeleteAll`; consistency is kept |
| FileServiceImpl.FileService.FindAll | src/main/java/com/setec/resource/feature/file/FileServiceImpl.java:154 | every record exactly once: the list is as long as the repository, holds each key once, and each entry is the record under its key |
| FileServiceImpl.FileService.LoadAllFiles | src/main/java/com/setec/resource/feature/file/FileServiceImpl.java:151-172 | one response per record and a record for every response, in the order `findAll` gives: names distinct, each response built from its record; when records are filed under their own names (as on consistent stores) each response's name is its key |
| FileController.ShapeStream | src/main/java/com/setec/resource/feature/file/FileController.java:104-118 | 200 with the full size as Content-Length when not partial. Otherwise 206 with `Content-Range: bytes s-e/n`, `Accept-Ranges: bytes` and Content-Length end-start+1 |
| FileController.ViewByFileName | src/main/java/com/setec/resource/feature/file/FileController.java:97-119 | succeeds exactly when the stream does, and otherwise carries the stream's error |
| FileController.ContentRange | src/main/java/com/setec/resource/feature/file/FileController.java:115 | `bytes <start>-<end>/<size>`; ContentRangeReadsBack proves it reads back as the three numbers |
| FileController.ReadContentRangeOf | src/main/java/com/setec/resource/feature/file/FileController.java:115 | the reader of `bytes <a>-<b>/<c>` returns the three numbers |
| FileController.ContentRangeReadsBack | src/main/java/com/setec/resource/feature/file/FileController.java:115 | every Content-Range the controller writes reads back as its window and size |
| FileController.FullViewLengthIsBodyLength | src/main/java/com/setec/resource/feature/file/FileController.java:105-109 | without a byte range, for a record backed by its object: 200, the whole object, Content-Length equal to the body's length |
| FileController.PartialViewIsConsistent | src/main/java/com/setec/resource/feature/file/FileController.java:113-116 | with a byte range: 206, Accept-Ranges bytes, and a Content-Range that reads back as the served window and the file size, with 0 <= first <= last < size |
| FileController.PartialViewLength | src/main/java/com/setec/resource/feature/file/FileController.java:117 | with a byte range on a file of at most Long.MAX_VALUE bytes, Content-Length is the body's length, last-first+1: it never wraps |
| FileController.OpenRangeIsPartial | src/main/java/com/setec/resource/feature/file/FileController.java:102-119 | any header that reads as `bytes=<first>-` is answered 206, even `bytes=0-` for the whole file, with the object from first on and `Content-Range: bytes <first>-<size-1>/<size>` |
| FileController.DownloadByFileName | src/main/java/com/setec/resource/feature/file/FileController.java:83-95 | fails exactly when the service download does (500); otherwise 200 with `Content-Disposition: attachment; filename=<name>` |
| FileController.DownloadNamesTheFile | src/main/java/com/setec/resource/feature/file/FileController.java:91 | a known file downloads as its stored object, and the disposition reads back as the requested name |
| FileController.ShapeBackground | src/main/java/com/setec/resource/feature/file/FileController.java:126-129 | 200 with the file's type and `Content-Disposition: inline; filename="<name>"` |
| FileController.BackgroundNamesTheFile | src/main/java/com/setec/resource/feature/file/FileController.java:128 | the inline disposition reads back as the name exactly when the name holds no quote |
| FileController.WithDefaults | src/main/java/com/setec/resource/feature/file/FileController.java:47-53 | each parameter on its own: a given value is kept, an absent one becomes compress=false, level=LOW, type=DEFAULT, resize=ORIGINAL, w=0 or h=0 |
| FileController.GivenParamsKept | src/main/java/com/setec/resource/feature/file/FileController.java:47-53 | a query giving every parameter yields exactly those parameters |
| FileController.ServiceRequest | src/main/java/com/setec/resource/feature/file/FileController.java:56 | the part, compress, level and type reach the service unchanged |
| FileController.UploadFile | src/main/java/com/setec/resource/feature/file/FileController.java:44-57 | 201 on success, otherwise the error's status; the stores are those of the service upload |
| FileController.DefaultUploadKeepsBytes | src/main/java/com/setec/resource/feature/file/FileController.java:48-56 | with default parameters a successful upload answers 201. It records the part's own size and type DEFAULT, and downloads as the uploaded bytes |

## Left out

- The MinIO client, the JPA repository and Spring's request handling are
  left out. The stores are maps, and their failures are fault parameters.
- Thumbnailator re-encoding (`compressImage`) is a function parameter that
  returns some bytes or fails. The recorded size is the length of those
  bytes.
- `MediaUtil.extractExtension` is a function the service is constructed
  with, since its code is not part of this model.
- FileServiceImpl.FileService.DrawUuid: does not model the UUID format.
  It assumes only that no identifier repeats within one allocation, which
  is what makes the retry loop terminate.
- Concurrency is left out: two uploads racing between the existence check
  and the save cannot be expressed in this sequential model.
- The temporary file `downloadFileByName` copies to is left out: filesystem
  I/O. The download is modelled as the object's bytes.
- `getBackground` and `findOneRandomByType` are left out: a random native
  query and a direct store read. The controller's shaping of the picked
  file is modelled (`FileController.ShapeBackground`).
- The seven-argument resize upload and `getBackgroundSmooth` are left out.
  The controller calls them, but no implementation exists. The resize
  parameters are received and defaulted, then dropped.
- The single-argument `uploadSingleFile` stub, which returns null, is left
  out.
- `getAllFileNames` is left out: a repository projection with no logic.
- `MediaType.parseMediaType` is left out. FileController.ShapeStream
  assumes the stored content type parses; a type the upload check lets
  through but Spring rejects (such as `image/`) would end in an error the
  model does not produce.
- JavaText.ParseLong: accepts ASCII digits only. `Long.parseLong` also
  accepts other Unicode decimal digits.
- FileServiceSpec.StoreUpload: file sizes are unbounded integers, not
  `long`. The lemmas that depend on the range arithmetic require sizes up
  to Long.MAX_VALUE.
- FileServiceSpec.GetFileStream, FileServiceSpec.DownloadFileByName and
  FileServiceSpec.ViewFileRange: a MinIO read failure on a present object
  (500 in the service) is not modelled; a read of a present object always
  succeeds. In `GetFileStream` an object shorter than the window gives 500,
  whereas a ranged object-store read would return the shorter body. On
  consistent stores no object is shorter than its record.
- FileServiceSpec.ViewFileRange: returns the ranged read it issues (path,
  offset, length), not its bytes. What the store answers for that read is
  not modelled, including for the negative length of the Findings row.
- FileServiceSpec.DownloadFileByName: the `MalformedURLException`-to-404
  branch cannot arise for a temporary-file URL and is left out.
- The database surrogate `id` and the audit configuration play no part in
  any operation and are left out.

## Findings

| source | as written | input that shows it | evidently intended | confidence | as-written member | corrected member |
|---|---|---|---|---|---|---|
| src/main/java/com/setec/resource/feature/file/FileServiceImpl.java:288-299 | `viewFileRange` takes the parsed end without clamping it to the file, then computes `(end - start) + 1` in `long` | `Range: bytes=0-9223372036854775807` on any non-empty file: the content length wraps to -9223372036854775808 | clamp the end to `fileSize - 1`, as `getFileStream` does at line 338, so the length is the number of bytes available | not executed | RangeResolver.ViewLengthOverflows | RangeResolver.StreamClampsLargeLast |
