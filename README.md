# node-runner-express: site provisioning, modelled in Dafny

`node-runner-express.js` is a small Express application. A caller uploads a zip
archive with a web name and optional build and start commands. The handler:

- sanitises the name and appends a fresh version 4 UUID to form a folder under `sites/`;
- extracts the archive into that folder;
- writes a `metadata.json` record beside the extracted files.

`GET /sites` lists every folder whose metadata file exists and parses to a
truthy JSON value. `GET /site/:folder/*` joins the request onto `sites/`,
refuses a joined path that does not start with the `sites` directory's path
string (400), answers 404 for a path that does not exist, and otherwise sends
the file.

The model has seven modules.

| module | models |
|---|---|
| `JsText` | JavaScript strings as UTF-16 code units, `startsWith`, and the `''` default of optional body fields |
| `SiteNaming` | the name sanitiser `replace(/[^a-z0-9-_]/gi, '_').toLowerCase()`, the folder name `${safeName}-${id}`, and the shape of a UUID v4 |
| `PosixPath` | Node's POSIX `path.join` and `path.normalize`, written as the segment stack their character scan implements |
| `SiteRecords` | the metadata literal, JSON values and their truthiness, and reading a record back |
| `UploadHandler` | `POST /upload` as a function from the `sites` directory's state to its new state and a status |
| `SiteListing` | the `GET /sites` loop as an imperative method, proved equal to a functional filter |
| `SiteServing` | the `GET /site/:folder/*` decision, the containment properties the prefix test does and does not give, and a corrected containment check |

### How the model treats the environment

- **Filesystem.** `sites/` is a map from folder name to the state of its
  metadata file: missing, unreadable, or parsed to a JSON value. `readdir` is
  an optional list of names; `None` stands for a rejected call.
- **Serving.** `fs.pathExists` is a set of existing paths.
- **Uploads.** The UUID, the ISO timestamp and whether extraction succeeded
  are inputs to the upload handler.
- **Strings.** They are sequences of UTF-16 code units.

### What the code does not do

- It launches no process. `startCmd` is only stored in the record (node-runner-express.js:3, 54), and `deploy` only becomes `deployedRequested: !!deploy`.
- A path that does not exist is answered with a plain 404 (node-runner-express.js:89).
- The serve check is a string prefix test against `join(__dirname, 'sites')` (node-runner-express.js:88). It does not confine a request to the site's own directory.
  - `SiteServing.CrossSiteRequest` shows that `../other-site/file` under one folder serves the other site's file.
  - `SiteServing.ParentFolderRequest` shows that a sibling of `sites` whose name starts with `sites` gets through.
- The upload handler does not check the archive's extension or its entries.

## Model

| member | source | states |
|---|---|---|
| `JsText.OrEmpty` | node-runner-express.js:53-54 | defaulting an optional string with `''` (as in `buildCmd` and `req.params[0]`) gives the value when it is present and non-empty, and `''` otherwise |
| `SiteNaming.ReplaceUnsafeAt` | node-runner-express.js:42 | the regex replacement keeps the length; each code unit is kept if it is an ASCII letter, digit, `-` or `_`, and becomes `_` otherwise |
| `SiteNaming.LowerAt` | node-runner-express.js:42 | lower-casing keeps the length and maps each code unit by ASCII lower-casing |
| `SiteNaming.SafeNameAt` | node-runner-express.js:42 | the sanitised name has the web name's length; position `i` holds the lowered unit if it was a name character and `_` otherwise |
| `SiteNaming.ReplacedIsAscii` | node-runner-express.js:42 | after the replacement every code unit is ASCII, so ASCII lower-casing is `toLowerCase` on it |
| `SiteNaming.SafeNameIsSafe` | node-runner-express.js:42 | the sanitised name keeps the length and consists only of `a-z`, `0-9`, `-` and `_` |
| `SiteNaming.SafeNameFixedIff` | node-runner-express.js:42 | the sanitiser leaves a string unchanged if and only if it already consists only of safe characters |
| `SiteNaming.SafeNameIdempotent` | node-runner-express.js:42 | sanitising twice is sanitising once |
| `SiteNaming.FolderNameParts` | node-runner-express.js:43 | the folder name is the safe name, a hyphen, then the id, with those lengths |
| `SiteNaming.FolderNamesDistinct` | node-runner-express.js:41-43 | two ids of equal length that differ give different folder names, whatever the two web names are |
| `SiteNaming.UuidFoldersDistinct` | node-runner-express.js:41-43 | distinct version 4 UUIDs give distinct folders, whatever the web names |
| `PosixPath.SplitAppend` | node-runner-express.js:87 | splitting `a/b` on `/` gives the pieces of `a` followed by the pieces of `b` |
| `PosixPath.SplitJoinRoundTrip` | node-runner-express.js:87 | joining a non-empty list of slash-free segments with `/` and splitting again gives the list back |
| `PosixPath.JoinWithAppend` | node-runner-express.js:87 | joining a concatenation of argument lists is joining each list and putting a slash between |
| `PosixPath.ResolveAppend` | node-runner-express.js:87 | resolving two runs of segments is resolving the second on the result of the first |
| `PosixPath.ResolveCanonical` | node-runner-express.js:87 | resolving keeps a stack canonical: no empty or `.` segment, and for an absolute path no `..` segment |
| `PosixPath.SegmentsCanonical` | node-runner-express.js:87 | the segments normalize keeps for any path form a canonical stack |
| `PosixPath.ResolveCanonicalIdentity` | node-runner-express.js:87 | resolving segments that already form a canonical stack changes nothing |
| `PosixPath.ResolveWithoutDotDot` | node-runner-express.js:87 | without a `..` segment, resolving only drops empty and `.` segments and never pops what is on the stack |
| `PosixPath.ResolveNonEmpty` | node-runner-express.js:87 | the empty arguments `join` drops would have resolved to nothing |
| `PosixPath.RenderSplit` | node-runner-express.js:87 | writing a canonical stack out and splitting it again gives the stack back between the root and trailing pieces |
| `PosixPath.RenderEnds` | node-runner-express.js:87 | a written-out non-empty stack starts with `/` exactly when absolute and ends with `/` exactly when trailing |
| `PosixPath.NormalizeSplit` | node-runner-express.js:87 | when at least one segment survives, a normalised path consists of a root slash if absolute, the canonical segments between single slashes, and a trailing slash if the input had one |
| `PosixPath.NormalizeIdempotent` | node-runner-express.js:87 | `normalize(normalize(p)) == normalize(p)` for every path |
| `PosixPath.NormalizeEmptyStack` | node-runner-express.js:87 | normalize keeps `/`, `./` and `.` as they are |
| `PosixPath.JoinAbsolute` | node-runner-express.js:87 | `join` with an absolute first argument gives an absolute string whose segments are all the arguments' pieces resolved in order |
| `PosixPath.JoinLastUnit` | node-runner-express.js:87 | the joined string ends with the last code unit of a non-empty last argument |
| `PosixPath.RenderExtends` | node-runner-express.js:88 | adding segments to a stack writes the shorter path, or the shorter path followed by `/` and more |
| `SiteServing.Serve` | node-runner-express.js:84-90 | 400 exactly when the joined path does not start with the sites directory string; 404 exactly when it does but does not exist; otherwise the joined path is sent, and it exists and starts with that string |
| `SiteServing.ServeResponse.Status` | node-runner-express.js:88-90 | a refused path answers 400, one that does not exist 404, and a sent file 200, each exactly |
| `SiteServing.RejectionIgnoresExistence` | node-runner-express.js:88-89 | the 400 decision is taken before and regardless of what exists on disk |
| `SiteServing.SentFilesStartWithSitesRoot` | node-runner-express.js:88-90 | every file sent is named by a string starting with the sites directory |
| `SiteServing.SitesRootShape` | node-runner-express.js:88 | `join(root, 'sites')` is the root's segments followed by `sites`, written with no trailing slash |
| `SiteServing.RequestedPathResolves` | node-runner-express.js:87 | `join(root, 'sites', folder, rest)` resolves the pieces of `folder` and then of `rest` on top of the sites directory's segments |
| `SiteServing.RequestedSegments` | node-runner-express.js:87 | without `..` pieces, the joined path's segments are the root, `sites`, then the plain pieces of `folder` and of `rest` |
| `SiteServing.RequestedUnderSitesRoot` | node-runner-express.js:87-88 | without `..` pieces, the joined path is the sites directory or lies below it at a segment boundary |
| `SiteServing.NoDotDotStaysUnderSitesRoot` | node-runner-express.js:87-88 | without `..` pieces the request is never a 400, and the path is within the sites directory segment by segment |
| `SiteServing.FolderIsOneSegment` | node-runner-express.js:42-43 | a folder made from any web name and a slash-free id is one plain path segment |
| `SiteServing.SiteDirSegments` | node-runner-express.js:43 | `join(root, 'sites', folder)` for a plain folder is the root's segments, `sites` and the folder |
| `SiteServing.SiteDirShape` | node-runner-express.js:43 | the directory of a plain folder is the sites directory string, `/`, then the folder |
| `SiteServing.OneSegmentFolderContainment` | node-runner-express.js:87-88 | for a plain folder and a sub-path without `..`, the served path is the site's directory or lies below it |
| `SiteServing.UploadedSiteContainment` | node-runner-express.js:43-88 | for a folder the upload handler creates and a sub-path without `..`, the served path stays within the directory that upload extracted into |
| `SiteServing.SiblingOutside` | node-runner-express.js:88 | a slash-free name other than `sites` is neither the sites directory nor below it |
| `SiteServing.ParentFolderRequest` | node-runner-express.js:87-88 | folder `..` with plain `x` resolves to `x` beside `sites`; the check refuses it exactly when `x` does not start with `sites`, so a sibling such as `sites-x` passes although it is outside |
| `SiteServing.CrossSitePaths` | node-runner-express.js:87 | under folder `a`, the sub-path `../b/r` joins to the same string as folder `b` with sub-path `r` |
| `SiteServing.CrossSiteStacks` | node-runner-express.js:87 | the `..` of `../b/r` pops the folder `a` it follows |
| `SiteServing.CrossSiteRequest` | node-runner-express.js:87-90 | `../b/r` under any site is served exactly as `r` under site `b`, and is never refused |
| `SiteServing.ServeContained` | node-runner-express.js:88 | the corrected route: 400 exactly when the joined path is neither the sites directory nor below it at a `/`; everything sent lies within it |
| `SiteServing.WithinDirStartsWith` | node-runner-express.js:88 | lying within a directory implies starting with its name, not the converse |
| `SiteServing.ContainedIsStricter` | node-runner-express.js:88 | whatever the prefix test refuses, the corrected check refuses; whatever the corrected check accepts is answered the same way by both |
| `SiteServing.ContainedAgreesWithoutDotDot` | node-runner-express.js:87-88 | on requests without `..` pieces both checks give the same response, and it is never 400 |
| `SiteServing.ContainedRejectsSibling` | node-runner-express.js:88 | the corrected check refuses every sibling of `sites` that is reached through folder `..` |
| `SiteRecords.LookupLast` | node-runner-express.js:76 | reading a key of a JSON object finds the last member with that key |
| `SiteRecords.LookupsOfToJson` | node-runner-express.js:49-57 | each of the seven keys of the written record holds its field: five strings, the boolean, and the id |
| `SiteRecords.MetadataRoundTrip` | node-runner-express.js:58-76 | the record written is a truthy JSON object, and reading it back gives the same metadata |
| `UploadHandler.UploadStatus.Code` | node-runner-express.js:38-64 | 400 exactly for a missing file or name, 500 exactly for the failure the catch branch reports, 200 exactly for a successful upload |
| `UploadHandler.MetadataFor` | node-runner-express.js:49-57 | id and timestamp as given; web name verbatim; build and start commands are the value when non-empty and `''` otherwise; `deployedRequested` is `!!deploy`; `sourceZip` is the stored file name |
| `UploadHandler.Upload` | node-runner-express.js:37-64 | no file gives 400 before the name is looked at; an empty name gives 400; both leave `sites/` unchanged; otherwise the folder is `safeName-id`, and it receives the record on success or keeps what a failed extraction left on failure, with all other folders unchanged |
| `UploadHandler.RejectedUploadChangesNothing` | node-runner-express.js:38-39 | a rejected upload answers 400 and changes nothing, whatever the id, time and extraction outcome |
| `UploadHandler.UploadedRecord` | node-runner-express.js:41-58 | a successful upload stores a record that reads back as its metadata, in a folder whose suffix is the record's id and whose prefix is a safe name as long as the web name, and leaves every other folder as it was |
| `SiteListing.ListSites` | node-runner-express.js:69-79 | the loop's `list` is the listing of the directory names, and empty when `readdir` fails |
| `SiteListing.ListingIsOrderedFilter` | node-runner-express.js:72-79 | the listing is a subsequence of the directory names in directory order; a name is listed exactly when its metadata exists and parses to a truthy value, and the value read is attached |
| `SiteListing.ListingMembership` | node-runner-express.js:73-77 | an entry is listed if and only if its folder is a directory name with a listable record, and its meta is that record |
| `SiteListing.UploadThenList` | node-runner-express.js:43-77 | after a successful upload, any listing that reads the new folder shows its record, and that record reads back as the uploaded metadata |
| `SiteListing.TwoUploadsKeepBoth` | node-runner-express.js:41-58 | two successful uploads with distinct UUIDs use different folders, and both records survive |

## Left out

- Express routing, multer's multipart parsing, its 200 MB limit and the stored upload's temporary path are not modelled. The upload request is given as already parsed.
- The request parameters' URL decoding by Express is not modelled. `folder` and the wildcard arrive decoded, as strings that may contain `..` and `/`.
- AdmZip's reading and extraction are one input: success, or failure with whatever metadata file the partial extraction left. Entry-level traversal handling inside the zip library is not part of this model.
- `UploadHandler.Upload`: exceptions from `ensureDir` or `writeJson` fall into the same 500 branch as an extraction failure in the source. The model only gives the extraction outcome as an input, so a failed metadata write after a good extraction is not a separate case.
- `uuidv4()` and `new Date().toISOString()` are inputs. The model does not produce random ids; it assumes only the UUID v4 shape where a lemma needs it.
- JSON text: `writeJson` with two-space indentation, and `readJson` parsing, are not modelled as text. The record is a JSON value, and the file parses, fails to parse, or is missing.
- `fs.pathExists`, `fs.readdir` and `res.sendFile` are abstract inputs. The model does not cover symbolic links, races between the check and the send, or what `sendFile` does with its own path checks.
- The body field types are narrowed. Body fields are optional strings; a repeated field that `express.urlencoded` would turn into an array is not modelled.
- Response bodies, the HTML templates, `res.render`, static file serving, the startup `ensureDirSync` calls and `app.listen` are not modelled.
- Node's `toLowerCase` is modelled on ASCII only. `SiteNaming.ReplacedIsAscii` shows it is applied only to ASCII text here.
- `path.join` and `path.normalize` are modelled for POSIX paths. The project root `__dirname` is any absolute path wherever a lemma needs it.
- Concurrency between requests and the `async` sequencing are not modelled. Each handler is one atomic step.

## Findings

| source | as written | input that shows it | evidently intended | confidence | as-written member | corrected member |
|---|---|---|---|---|---|---|
| node-runner-express.js:88 | `filePath.startsWith(path.join(__dirname, 'sites'))` compares strings, so a path beside the sites directory whose name starts with `sites` passes the check | `GET /site/%2e%2e/sites-backup`: folder `..`, sub-path `sites-backup`, resolving to `__dirname/sites-backup` | serve only the sites directory and paths below it at a `/` boundary | not executed; medium | `SiteServing.ParentFolderRequest` | `SiteServing.ServeContained` |
