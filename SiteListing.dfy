/** The `GET /sites` handler: every folder under `sites/` whose metadata file exists and parses. */
module SiteListing {
  import opened JsText
  import opened SiteNaming
  import opened SiteRecords
  import opened UploadHandler

  /** One item of `list`: `{ folder: name, meta }`. */
  datatype SiteEntry = SiteEntry(folder: JsString, meta: Json)

  /** `fs.readdir(sitesRoot).catch(() => [])`: `None` stands for a rejected `readdir`. */
  function DirectoryNames(readdir: Option<seq<JsString>>): seq<JsString>
  {
    if readdir.Some? then readdir.value else []
  }

  /**
   * What `meta` is for a folder: the parsed value, or `null` when `readJson`
   * rejected (its `.catch(() => null)`); only asked when the file exists.
   */
  function ReadMeta(file: MetaFile): Json
  {
    if file.Parsed? then file.value else JNull
  }

  /** The metadata file of a directory entry; an entry the map does not know has none. */
  function FileOf(files: map<JsString, MetaFile>, name: JsString): MetaFile
  {
    if name in files then files[name] else Missing
  }

  /** An entry is listed when its metadata file exists, parses, and the parsed value is truthy. */
  predicate IsListed(files: map<JsString, MetaFile>, name: JsString)
  {
    FileOf(files, name).Parsed? && JsonTruthy(FileOf(files, name).value)
  }

  /** The listing of the first entries, as the loop builds it one entry at a time. */
  function Listing(names: seq<JsString>, files: map<JsString, MetaFile>): seq<SiteEntry>
  {
    if names == [] then []
    else
      var last := names[|names| - 1];
      Listing(names[..|names| - 1], files) +
        (if IsListed(files, last) then [SiteEntry(last, FileOf(files, last).value)] else [])
  }

  /** The positions of the listed entries, in increasing order. */
  function ListedPositions(names: seq<JsString>, files: map<JsString, MetaFile>): seq<nat>
  {
    if names == [] then []
    else
      ListedPositions(names[..|names| - 1], files) +
        (if IsListed(files, names[|names| - 1]) then [|names| - 1] else [])
  }

  /** The handler's loop over the directory names. */
  method ListSites(readdir: Option<seq<JsString>>, files: map<JsString, MetaFile>) returns (list: seq<SiteEntry>)
    ensures list == Listing(DirectoryNames(readdir), files)
    ensures readdir.None? ==> list == []
  {
    var names := DirectoryNames(readdir);
    list := [];
    for i := 0 to |names|
      invariant list == Listing(names[..i], files)
    {
      var name := names[i];
      var file := FileOf(files, name);
      if file != Missing {
        var meta := ReadMeta(file);
        if JsonTruthy(meta) {
          list := list + [SiteEntry(name, meta)];
        }
      }
      assert names[..i + 1][..i] == names[..i];
    }
    assert names[..|names|] == names;
  }

  /**
   * The listing keeps the directory order and is a subsequence of it: its k-th
   * item is the entry at the k-th listed position, those positions increase,
   * and a position is listed exactly when its entry's metadata exists and
   * parses to a truthy value, which is attached as it was read.
   */
  lemma {:induction false} ListingIsOrderedFilter(names: seq<JsString>, files: map<JsString, MetaFile>)
    ensures var list, pos := Listing(names, files), ListedPositions(names, files);
      && |pos| == |list| <= |names|
      && (forall k | 0 <= k < |pos| ::
            pos[k] < |names| && IsListed(files, names[pos[k]]) &&
            list[k] == SiteEntry(names[pos[k]], FileOf(files, names[pos[k]]).value))
      && (forall k, l | 0 <= k < l < |pos| :: pos[k] < pos[l])
      && (forall i | 0 <= i < |names| :: IsListed(files, names[i]) <==> i in pos)
  {
    if names != [] {
      var init := names[..|names| - 1];
      ListingIsOrderedFilter(init, files);
      var pos0 := ListedPositions(init, files);
      assert forall k | 0 <= k < |pos0| :: pos0[k] < |init|;
      assert forall i | 0 <= i < |init| :: names[i] == init[i];
    }
  }

  /** An item is in the listing exactly when its folder is a directory entry that is listed, with the value read. */
  lemma {:induction false} ListingMembership(names: seq<JsString>, files: map<JsString, MetaFile>, e: SiteEntry)
    ensures e in Listing(names, files) <==>
      e.folder in names && IsListed(files, e.folder) && e.meta == FileOf(files, e.folder).value
  {
    if names != [] {
      var init := names[..|names| - 1];
      ListingMembership(init, files, e);
      assert names == init + [names[|names| - 1]];
    }
  }

  /**
   * A site uploaded successfully shows up in any later listing that reads its
   * folder, and the record read back there is the one the upload wrote.
   */
  lemma UploadThenList(sites: map<JsString, MetaFile>, req: UploadRequest, id: JsString, uploadedAt: JsString,
                       names: seq<JsString>)
    requires req.file.Some? && IsTruthy(req.webName)
    requires FolderName(SafeName(req.webName.value), id) in names
    ensures var r := Upload(sites, req, id, uploadedAt, Extracted);
      var meta := MetadataFor(req, id, uploadedAt);
      && SiteEntry(r.status.folder, ToJson(meta)) in Listing(names, r.sites)
      && FromJson(ToJson(meta)) == Some(meta)
  {
    var r := Upload(sites, req, id, uploadedAt, Extracted);
    var meta := MetadataFor(req, id, uploadedAt);
    MetadataRoundTrip(meta);
    UploadedRecord(sites, req, id, uploadedAt);
    ListingMembership(names, r.sites, SiteEntry(r.status.folder, ToJson(meta)));
  }

  /**
   * Two successful uploads with different version 4 ids keep both records,
   * whatever names they were given: the second does not overwrite the first.
   */
  lemma TwoUploadsKeepBoth(sites: map<JsString, MetaFile>, req1: UploadRequest, id1: JsString, t1: JsString,
                           req2: UploadRequest, id2: JsString, t2: JsString)
    requires req1.file.Some? && IsTruthy(req1.webName)
    requires req2.file.Some? && IsTruthy(req2.webName)
    requires IsUuidV4(id1) && IsUuidV4(id2) && id1 != id2
    ensures var r1 := Upload(sites, req1, id1, t1, Extracted);
      var r2 := Upload(r1.sites, req2, id2, t2, Extracted);
      && r1.status.folder != r2.status.folder
      && r2.sites[r1.status.folder] == Parsed(ToJson(MetadataFor(req1, id1, t1)))
      && r2.sites[r2.status.folder] == Parsed(ToJson(MetadataFor(req2, id2, t2)))
  {
    UuidFoldersDistinct(req1.webName.value, req2.webName.value, id1, id2);
  }
}
