/**
 * The `POST /upload` handler: check the request, derive the site folder, create
 * it, extract the archive into it and write the metadata record.
 */
module UploadHandler {
  import opened JsText
  import opened SiteNaming
  import opened SiteRecords

  /** What the upload middleware attaches as `req.file`; only its stored file name is used. */
  datatype UploadedFile = UploadedFile(filename: JsString)

  /** The parts of the request the handler reads: `req.file` and the four body fields. */
  datatype UploadRequest = UploadRequest(
    file: Option<UploadedFile>,
    webName: Option<JsString>,
    buildCmd: Option<JsString>,
    startCmd: Option<JsString>,
    deploy: Option<JsString>)

  /**
   * How `extractAllTo` ended. When it throws, `leftover` is what the site
   * folder's `metadata.json` then is: `Missing` unless the archive itself carried
   * one at its top level.
   */
  datatype Extraction = Extracted | ExtractionFailed(leftover: MetaFile)

  /** The response, by status; the bodies are not modelled. */
  datatype UploadStatus =
    | NoFile               // 400 'No file uploaded. ...'
    | NoName               // 400 'Web name is required.'
    | Failed               // 500 'Upload failed: ...'
    | Uploaded(folder: JsString)
  {
    function Code(): (c: int)
      ensures c == 400 <==> (NoFile? || NoName?)
      ensures c == 200 <==> Uploaded?
      ensures c == 500 <==> Failed?
    {
      match this
      case NoFile => 400
      case NoName => 400
      case Failed => 500
      case Uploaded(_) => 200
    }
  }

  /** The response and the `sites/` directory afterwards: folder name to its metadata file. */
  datatype UploadResult = UploadResult(status: UploadStatus, sites: map<JsString, MetaFile>)

  /** The `metadata` object literal, for a request that passed both checks. */
  function MetadataFor(req: UploadRequest, id: JsString, uploadedAt: JsString): (m: Metadata)
    requires req.file.Some? && IsTruthy(req.webName)
    ensures m.id == id && m.uploadedAt == uploadedAt
    ensures m.webName == req.webName.value
    ensures m.buildCmd == (if IsTruthy(req.buildCmd) then req.buildCmd.value else [])
    ensures m.startCmd == (if IsTruthy(req.startCmd) then req.startCmd.value else [])
    ensures m.deployedRequested <==> req.deploy.Some? && req.deploy.value != []
    ensures m.sourceZip == req.file.value.filename
  {
    Metadata(
      id := id,
      webName := req.webName.value,
      uploadedAt := uploadedAt,
      buildCmd := OrEmpty(req.buildCmd),
      startCmd := OrEmpty(req.startCmd),
      deployedRequested := IsTruthy(req.deploy),
      sourceZip := req.file.value.filename)
  }

  /**
   * The handler, given the directory it starts from, the request, the id
   * `uuidv4()` returned, the time `toISOString()` gave and how extraction ended.
   */
  function Upload(sites: map<JsString, MetaFile>, req: UploadRequest, id: JsString, uploadedAt: JsString,
                  extraction: Extraction): (r: UploadResult)
    ensures req.file.None? ==> r == UploadResult(NoFile, sites)
    ensures req.file.Some? && !IsTruthy(req.webName) ==> r == UploadResult(NoName, sites)
    ensures r.status.Uploaded? <==> req.file.Some? && IsTruthy(req.webName) && extraction.Extracted?
    ensures r.status.Failed? <==> req.file.Some? && IsTruthy(req.webName) && extraction.ExtractionFailed?
    ensures r.status.Uploaded? ==>
      var folder := FolderName(SafeName(req.webName.value), id);
      && r.status.folder == folder
      && r.sites == sites[folder := Parsed(ToJson(MetadataFor(req, id, uploadedAt)))]
    ensures r.status.Failed? ==>
      r.sites == sites[FolderName(SafeName(req.webName.value), id) := extraction.leftover]
  {
    if req.file.None? then UploadResult(NoFile, sites)
    else if !IsTruthy(req.webName) then UploadResult(NoName, sites)
    else
      var safeName := SafeName(req.webName.value);
      var folder := FolderName(safeName, id);
      match extraction
      case ExtractionFailed(leftover) => UploadResult(Failed, sites[folder := leftover])
      case Extracted =>
        var metadata := MetadataFor(req, id, uploadedAt);
        UploadResult(Uploaded(folder), sites[folder := Parsed(ToJson(metadata))])
  }

  /**
   * A rejected request creates nothing: the response is 400 and the sites
   * directory is as it was, whatever the other fields say.
   */
  lemma RejectedUploadChangesNothing(sites: map<JsString, MetaFile>, req: UploadRequest, id: JsString,
                                     uploadedAt: JsString, extraction: Extraction)
    requires req.file.None? || !IsTruthy(req.webName)
    ensures Upload(sites, req, id, uploadedAt, extraction).status.Code() == 400
    ensures Upload(sites, req, id, uploadedAt, extraction).sites == sites
  {
  }

  /**
   * After a successful upload the site's folder holds the record, and the id
   * stored in it is the folder name's suffix after the safe name and a hyphen.
   */
  lemma UploadedRecord(sites: map<JsString, MetaFile>, req: UploadRequest, id: JsString, uploadedAt: JsString)
    requires req.file.Some? && IsTruthy(req.webName)
    ensures var r := Upload(sites, req, id, uploadedAt, Extracted);
      var folder := r.status.folder;
      var meta := MetadataFor(req, id, uploadedAt);
      && r.status.Uploaded?
      && folder in r.sites
      && r.sites[folder] == Parsed(ToJson(meta))
      && FromJson(r.sites[folder].value) == Some(meta)
      && |folder| == |req.webName.value| + 1 + |id|
      && folder[|folder| - |id|..] == meta.id
      && IsSafeName(folder[..|req.webName.value|])
      && (forall other | other in sites && other != folder :: other in r.sites && r.sites[other] == sites[other])
  {
    var safe := SafeName(req.webName.value);
    SafeNameIsSafe(req.webName.value);
    FolderNameParts(safe, id);
    MetadataRoundTrip(MetadataFor(req, id, uploadedAt));
  }
}
