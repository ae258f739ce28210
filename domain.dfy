/** The entity and the response records of the file service. */
module Domain {
  import opened Results
  import opened CompressTable

  type Bytes = seq<bv8>

  /** The category tag a client attaches to an upload (FileType); DEFAULT is
      the controller's default. */
  datatype FileType = FileType(name: string)

  const DefaultFileType: FileType := FileType("DEFAULT")

  /** The `File` entity: one row per stored object. The database's surrogate
      `id` plays no part in any operation and is not modelled. */
  datatype FileRecord = FileRecord(
    fileName: string,
    contentType: string,
    folder: string,
    fileSize: int,
    extension: string,
    compressLevel: CompressLevel,
    fileType: FileType)

  /** `FileResponse`: what upload, list and lookup return to the client;
      `contentType`, `size` and `fileType` may be null. */
  datatype FileResponse = FileResponse(
    name: string,
    contentType: Option<string>,
    extension: string,
    uri: string,
    size: Option<int>,
    fileType: Option<FileType>)

  /** `FileStreamResponse`: the bytes of a resolved window with what the
      controller needs to shape the HTTP response. */
  datatype FileStreamResponse = FileStreamResponse(
    resource: Bytes,
    contentType: string,
    fileSize: int,
    start: int,
    end: int,
    isPartial: bool)

  /** The configured `media.base-uri` and `media.image-end-point`. */
  datatype Config = Config(baseUri: string, imageEndpoint: string)

  /** The public link of a stored file: base URI, endpoint, "/view/", name. */
  function ViewUri(config: Config, fileName: string): (uri: string)
    ensures |uri| >= |fileName| && uri[|uri| - |fileName|..] == fileName
  {
    config.baseUri + config.imageEndpoint + "/view/" + fileName
  }

  /** The response built from a stored record (upload and loadAllFiles). */
  function RecordResponse(config: Config, rec: FileRecord): (r: FileResponse)
    ensures r.name == rec.fileName && r.uri == ViewUri(config, rec.fileName)
    ensures r.size == Some(rec.fileSize) && r.fileType == Some(rec.fileType)
    ensures r.contentType == Some(rec.contentType) && r.extension == rec.extension
  {
    FileResponse(rec.fileName, Some(rec.contentType), rec.extension,
                 ViewUri(config, rec.fileName), Some(rec.fileSize), Some(rec.fileType))
  }
}
