/** FileServiceImpl as the stateful object it is: the metadata repository
    and the object store are fields that upload and delete update in
    place. Each method performs the source's steps in the source's order.
    The state-changing ones (UploadSingleFile, DeleteFileByName, Delete) are
    proved to leave the state, and return the outcome, that the matching
    function of FileServiceSpec describes, so the properties proved there
    (consistency of the two stores, round trips) hold of the object. The
    name allocation and the listing are specified directly: a fresh name,
    every record exactly once, one response per record. */
module FileServiceImpl {
  import opened Results
  import opened JavaText
  import opened CompressTable
  import opened Domain
  import opened FileServiceSpec

  /** Names that differ give different stored names for one extension. */
  lemma StoredNamesDiffer(a: string, b: string, extension: string)
    requires a != b
    ensures StoredName(a, extension) != StoredName(b, extension)
  {
    var na, nb := StoredName(a, extension), StoredName(b, extension);
    if |a| != |b| {
      assert |na| != |nb|;
    } else {
      var i :| 0 <= i < |a| && a[i] != b[i];
      assert na[i] != nb[i];
    }
  }

  /** A bound on the length of every string of a finite set. */
  ghost function LongestLength(names: set<string>): (n: nat)
    ensures forall s :: s in names ==> |s| <= n
    decreases names
  {
    if names == {} then 0
    else
      var s :| s in names;
      var rest := LongestLength(names - {s});
      if |s| > rest then |s| else rest
  }

  /** The stored names the stems of `tried` would give. */
  ghost function Taken(tried: set<string>, extension: string): set<string> {
    set s | s in tried :: StoredName(s, extension)
  }

  /** When every record is filed under its own name, a response built from
      the record under a key is named by that key. */
  lemma ResponsesNamedByKeys(config: Config, st: Stores, order: seq<string>, responses: seq<FileResponse>)
    requires KeyedByName(st) && |responses| == |order|
    requires forall i :: 0 <= i < |order| ==> order[i] in st.repository
    requires forall i :: 0 <= i < |order| ==> responses[i] == RecordResponse(config, st.repository[order[i]])
    ensures forall i :: 0 <= i < |order| ==> responses[i].name == order[i]
  {
  }

  /** A list without repeats that holds exactly the elements of a set is as
      long as the set is large. */
  lemma {:induction false} DistinctCount(order: seq<string>, keys: set<string>)
    requires forall i, j :: 0 <= i < j < |order| ==> order[i] != order[j]
    requires forall k :: k in keys <==> k in order
    ensures |order| == |keys|
    decreases |order|
  {
    if |order| > 0 {
      var last := order[|order| - 1];
      var rest := order[..|order| - 1];
      forall k
        ensures k in keys - {last} <==> k in rest
      {
        if k in rest {
          var i :| 0 <= i < |rest| && rest[i] == k;
          assert order[i] == k;
        }
      }
      DistinctCount(rest, keys - {last});
    }
  }

  class FileService {
    var repository: map<string, FileRecord>
    var objects: map<string, Bytes>
    const config: Config
    /** `MediaUtil.extractExtension`, whose code is not part of this model. */
    const extractExtension: string -> string

    function Snapshot(): Stores
      reads this
    {
      Stores(repository, objects)
    }

    /** Every record is backed by an object of the recorded size. */
    predicate Valid()
      reads this
    {
      Consistent(Snapshot())
    }

    constructor(config: Config, extractExtension: string -> string)
      ensures this.config == config && this.extractExtension == extractExtension
      ensures repository == map[] && objects == map[]
      ensures Valid()
    {
      this.config := config;
      this.extractExtension := extractExtension;
      repository := map[];
      objects := map[];
    }

    /** `UUID.randomUUID().toString()`: any identifier at all, except that an
        identifier is never drawn twice within one name allocation. */
    method DrawUuid(tried: set<string>) returns (id: string)
      ensures id !in tried
    {
      ghost var longer := seq(LongestLength(tried) + 1, _ => 'a');
      assert longer !in tried;
      id :| id !in tried;
    }

    /** The do/while loop of `uploadSingleFile`: draw identifiers until
        "<identifier>.<extension>" names no record. */
    method AllocateName(extension: string) returns (stem: string)
      ensures StoredName(stem, extension) !in repository
    {
      var tried: set<string> := {};
      stem := DrawUuid(tried);
      while StoredName(stem, extension) in repository
        invariant stem !in tried
        decreases repository.Keys - Taken(tried, extension)
      {
        forall s | s in tried
          ensures StoredName(s, extension) != StoredName(stem, extension)
        {
          StoredNamesDiffer(s, stem, extension);
        }
        assert Taken(tried + {stem}, extension) == Taken(tried, extension) + {StoredName(stem, extension)};
        tried := tried + {stem};
        stem := DrawUuid(tried);
      }
    }

    /** The four-argument `uploadSingleFile`: validate, decide compression,
        allocate a free name, encode when compressing, put the object, save
        the record. `stem` is the identifier the allocation drew (empty when
        the request is refused before allocation). */
    method UploadSingleFile(req: UploadRequest, encoder: Encoder, faults: UploadFaults)
      returns (r: Result<FileResponse>, ghost stem: string)
      modifies this
      ensures FreshStem(old(Snapshot()), req, extractExtension, stem)
      ensures Step(r, Snapshot()) == Upload(config, old(Snapshot()), req, extractExtension, stem, encoder, faults)
      ensures old(Valid()) ==> Valid()
    {
      ghost var st0 := Snapshot();
      stem := "";
      var folder := ValidFolder(req.contentType);
      if folder.Err? {
        return Err(folder.error), stem;
      }
      if req.originalFilename.None? {
        return Err(InternalServerError), stem;
      }
      var contentType := req.contentType.value;
      var extension := extractExtension(req.originalFilename.value);
      var compress := req.compress;
      if !StartsWith(contentType, "image/") || extension == "webp" {
        compress := false;
      }
      assert CheckUpload(req, extractExtension) == Ok(Intake(contentType, folder.value, extension, compress));
      var newName := AllocateName(extension);
      stem := newName;
      var fileName := StoredName(newName, extension);
      var objectName := ObjectKey(folder.value, fileName);
      var payload := req.data;
      var size := |payload|;
      if compress {
        var encoded := encoder(payload, QualityTenths(req.level));
        if encoded.None? {
          return Err(InternalServerError), stem;
        }
        payload := encoded.value;
        size := |payload|;
      }
      if faults.putFails {
        return Err(InternalServerError), stem;
      }
      objects := objects[objectName := payload];
      if faults.saveFails {
        if Consistent(st0) {
          UploadPreservesConsistent(config, st0, req, extractExtension, stem, encoder, faults);
        }
        return Err(InternalServerError), stem;
      }
      var record := FileRecord(fileName, contentType, folder.value, size, extension, NONE, req.fileType);
      repository := repository[fileName := record];
      r := Ok(RecordResponse(config, record));
      if Consistent(st0) {
        UploadPreservesConsistent(config, st0, req, extractExtension, stem, encoder, faults);
      }
    }

    /** `deleteFileByName`: look the record up (404), delete the record,
        then the object. */
    method DeleteFileByName(fileName: string, fault: DeleteFault) returns (r: Result<()>)
      modifies this
      ensures Step(r, Snapshot()) == DeleteByName(old(Snapshot()), fileName, fault)
      ensures old(Valid()) ==> Valid()
    {
      if Valid() {
        DeletePreservesConsistent(Snapshot(), fileName, fault);
      }
      if fileName !in repository {
        return Err(NotFound);
      }
      var file := repository[fileName];
      var objectName := ObjectKey(file.folder, fileName);
      if fault == RepositoryFault {
        return Err(InternalServerError);
      }
      repository := repository - {fileName};
      if fault == StoreFault {
        return Err(InternalServerError);
      }
      objects := objects - {objectName};
      r := Ok(());
    }

    /** `delete`: each requested name in order; the first failure ends the
        batch and is its outcome. */
    method Delete(names: seq<string>, faults: seq<DeleteFault>) returns (r: Result<()>)
      modifies this
      ensures Step(r, Snapshot()) == DeleteAll(old(Snapshot()), names, faults)
      ensures old(Valid()) ==> Valid()
    {
      ghost var st0 := Snapshot();
      r := Ok(());
      var i := 0;
      while i < |names|
        invariant 0 <= i <= |names|
        invariant DeleteAll(st0, names[..i], faults) == Step(Ok(()), Snapshot())
        invariant r == Ok(())
      {
        r := DeleteFileByName(names[i], FaultAt(faults, i));
        DeleteAllSnoc(st0, names, faults, i);
        if r.Err? {
          DeleteAllPrefixFails(st0, names, faults, i + 1);
          break;
        }
        i := i + 1;
      }
      if r.Ok? {
        assert names[..i] == names;
      }
      if Consistent(st0) {
        DeleteAllPreservesConsistent(st0, names, faults);
      }
    }

    /** `fileRepository.findAll()`: every record once, in the repository's
        (unspecified) order; `order` is the keys in that order. */
    method FindAll() returns (files: seq<FileRecord>, ghost order: seq<string>)
      ensures |files| == |order| == |repository|
      ensures forall k :: k in repository <==> k in order
      ensures forall i, j :: 0 <= i < j < |order| ==> order[i] != order[j]
      ensures forall i :: 0 <= i < |order| ==> files[i] == repository[order[i]]
    {
      var repo := repository;
      var remaining := repo.Keys;
      files := [];
      order := [];
      while remaining != {}
        invariant remaining <= repo.Keys
        invariant |files| == |order|
        invariant forall k :: k in repo ==> (k in remaining <==> k !in order)
        invariant forall k :: k in order ==> k in repo
        invariant forall i, j :: 0 <= i < j < |order| ==> order[i] != order[j]
        invariant forall i :: 0 <= i < |order| ==> files[i] == repo[order[i]]
        decreases remaining
      {
        var name :| name in remaining;
        assert name !in order;
        files := files + [repo[name]];
        order := order + [name];
        remaining := remaining - {name};
      }
      DistinctCount(order, repo.Keys);
    }

    /** `loadAllFiles`: one response per record, in the order `findAll`
        gives; `order` is that order. Each response is named by its key
        whenever records are filed under their own names, as `Valid()`
        guarantees (`ConsistentIsKeyed`). */
    method LoadAllFiles() returns (responses: seq<FileResponse>, ghost order: seq<string>)
      ensures |responses| == |order| == |repository|
      ensures forall k :: k in repository <==> k in order
      ensures forall i, j :: 0 <= i < j < |order| ==> order[i] != order[j]
      ensures forall i :: 0 <= i < |order| ==> responses[i] == RecordResponse(config, repository[order[i]])
      ensures KeyedByName(Snapshot()) ==> forall i :: 0 <= i < |order| ==> responses[i].name == order[i]
    {
      var files;
      files, order := FindAll();
      responses := [];
      for i := 0 to |files|
        invariant |responses| == i
        invariant forall j :: 0 <= j < i ==> responses[j] == RecordResponse(config, files[j])
      {
        responses := responses + [RecordResponse(config, files[i])];
      }
      if KeyedByName(Snapshot()) {
        ResponsesNamedByKeys(config, Snapshot(), order, responses);
      }
    }
  }
}
