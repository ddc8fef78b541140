/** The metadata record the upload handler writes as `metadata.json`, and what reading it back gives. */
module SiteRecords {
  import opened JsText

  /** A value `JSON.parse` (inside `fs.readJson`) can return. */
  datatype Json =
    | JNull
    | JBool(b: bool)
    | JNumber(n: real)
    | JString(s: JsString)
    | JArray(items: seq<Json>)
    | JObject(members: seq<(JsString, Json)>)

  /** JavaScript truthiness of a parsed value, as `if (meta)` tests it. */
  predicate JsonTruthy(v: Json)
  {
    match v
    case JNull => false
    case JBool(b) => b
    case JNumber(n) => n != 0.0
    case JString(s) => s != []
    case JArray(_) => true
    case JObject(_) => true
  }

  /** The fields of the `metadata` object literal. */
  datatype Metadata = Metadata(
    id: JsString,
    webName: JsString,
    uploadedAt: JsString,
    buildCmd: JsString,
    startCmd: JsString,
    deployedRequested: bool,
    sourceZip: JsString)

  const IdKey: JsString := [0x69, 0x64]  // "id"
  const WebNameKey: JsString := [0x77, 0x65, 0x62, 0x4E, 0x61, 0x6D, 0x65]  // "webName"
  const UploadedAtKey: JsString := [0x75, 0x70, 0x6C, 0x6F, 0x61, 0x64, 0x65, 0x64, 0x41, 0x74]  // "uploadedAt"
  const BuildCmdKey: JsString := [0x62, 0x75, 0x69, 0x6C, 0x64, 0x43, 0x6D, 0x64]  // "buildCmd"
  const StartCmdKey: JsString := [0x73, 0x74, 0x61, 0x72, 0x74, 0x43, 0x6D, 0x64]  // "startCmd"
  const DeployedRequestedKey: JsString := [0x64, 0x65, 0x70, 0x6C, 0x6F, 0x79, 0x65, 0x64, 0x52, 0x65, 0x71, 0x75, 0x65, 0x73, 0x74, 0x65, 0x64]  // "deployedRequested"
  const SourceZipKey: JsString := [0x73, 0x6F, 0x75, 0x72, 0x63, 0x65, 0x5A, 0x69, 0x70]  // "sourceZip"

  /** The object `fs.writeJson` serialises: the literal's properties in their written order. */
  function ToJson(m: Metadata): Json
  {
    JObject([
      (IdKey, JString(m.id)),
      (WebNameKey, JString(m.webName)),
      (UploadedAtKey, JString(m.uploadedAt)),
      (BuildCmdKey, JString(m.buildCmd)),
      (StartCmdKey, JString(m.startCmd)),
      (DeployedRequestedKey, JBool(m.deployedRequested)),
      (SourceZipKey, JString(m.sourceZip))])
  }

  /** Property access on a parsed object: the last member with that key wins, as in `JSON.parse`. */
  function Lookup(members: seq<(JsString, Json)>, key: JsString): Option<Json>
  {
    if members == [] then None
    else if members[|members| - 1].0 == key then Some(members[|members| - 1].1)
    else Lookup(members[..|members| - 1], key)
  }

  /** Reads a metadata record back from a parsed value: every field present with its type, or nothing. */
  function FromJson(v: Json): Option<Metadata>
  {
    match v
    case JObject(ms) =>
      (match (Lookup(ms, IdKey), Lookup(ms, WebNameKey), Lookup(ms, UploadedAtKey), Lookup(ms, BuildCmdKey),
              Lookup(ms, StartCmdKey), Lookup(ms, DeployedRequestedKey), Lookup(ms, SourceZipKey))
       case (Some(JString(id)), Some(JString(w)), Some(JString(u)), Some(JString(b)),
             Some(JString(s)), Some(JBool(d)), Some(JString(z))) =>
         Some(Metadata(id, w, u, b, s, d, z))
       case _ => None)
    case _ => None
  }

  /** What `sites/<name>/metadata.json` is to `fs.pathExists` and `fs.readJson`. */
  datatype MetaFile =
    | Missing           // `pathExists` answers false
    | Unreadable        // it exists, but `readJson` rejects
    | Parsed(value: Json)

  /** A member found at position `i` is what lookup returns when no later member has its key. */
  lemma {:induction false} LookupLast(members: seq<(JsString, Json)>, i: nat)
    requires i < |members|
    requires forall j | i < j < |members| :: members[j].0 != members[i].0
    ensures Lookup(members, members[i].0) == Some(members[i].1)
  {
    if i < |members| - 1 {
      var init := members[..|members| - 1];
      assert init[i] == members[i];
      LookupLast(init, i);
    }
  }

  /** The lengths of the seven property names, and the one code unit that tells `buildCmd` from `startCmd`: together they keep the keys apart. */
  lemma KeyShapes()
    ensures |IdKey| == 2 && |WebNameKey| == 7 && |UploadedAtKey| == 10 && |BuildCmdKey| == 8
    ensures |StartCmdKey| == 8 && |DeployedRequestedKey| == 17 && |SourceZipKey| == 9
    ensures BuildCmdKey[0] != StartCmdKey[0]
  {
  }

  /** Each property of the written object is found under its own name. */
  lemma LookupsOfToJson(m: Metadata)
    ensures Lookup(ToJson(m).members, IdKey) == Some(JString(m.id))
    ensures Lookup(ToJson(m).members, WebNameKey) == Some(JString(m.webName))
    ensures Lookup(ToJson(m).members, UploadedAtKey) == Some(JString(m.uploadedAt))
    ensures Lookup(ToJson(m).members, BuildCmdKey) == Some(JString(m.buildCmd))
    ensures Lookup(ToJson(m).members, StartCmdKey) == Some(JString(m.startCmd))
    ensures Lookup(ToJson(m).members, DeployedRequestedKey) == Some(JBool(m.deployedRequested))
    ensures Lookup(ToJson(m).members, SourceZipKey) == Some(JString(m.sourceZip))
  {
    KeyShapes();
    var ms := ToJson(m).members;
    var keys := seq(7, j requires 0 <= j < 7 => ms[j].0);
    assert keys == [IdKey, WebNameKey, UploadedAtKey, BuildCmdKey, StartCmdKey, DeployedRequestedKey, SourceZipKey];
    forall i, j | 0 <= i < j < 7
      ensures ms[j].0 != ms[i].0
    {
      assert ms[j].0 == keys[j] && ms[i].0 == keys[i];
    }
    LookupLast(ms, 0);
    LookupLast(ms, 1);
    LookupLast(ms, 2);
    LookupLast(ms, 3);
    LookupLast(ms, 4);
    LookupLast(ms, 5);
    LookupLast(ms, 6);
  }

  /** Reading back the record that was written gives every field as it was passed. */
  lemma MetadataRoundTrip(m: Metadata)
    ensures JsonTruthy(ToJson(m))
    ensures FromJson(ToJson(m)) == Some(m)
  {
    LookupsOfToJson(m);
  }
}
