/**
 * The route for `/site/:folder/` and a wildcard sub-path: join the request onto the storage root, reject
 * what does not start with the sites directory as a string, answer 404 for
 * what does not exist, and send the rest.
 */
module SiteServing {
  import opened JsText
  import opened PosixPath
  import opened SiteNaming

  /** `'sites'`, the directory that holds one folder per site. */
  const SitesDirName: JsString := [0x73, 0x69, 0x74, 0x65, 0x73]

  /** `path.join(__dirname, 'sites')`, the string the route compares against. */
  function SitesRoot(root: JsString): JsString
  {
    Join([root, SitesDirName])
  }

  /** `path.join(__dirname, 'sites', folder, rest)`. */
  function RequestedPath(root: JsString, folder: JsString, rest: JsString): JsString
  {
    Join([root, SitesDirName, folder, rest])
  }

  /** The outcome of a serve request; the response bodies are not modelled. */
  datatype ServeResponse = InvalidPath | NotFound | SendFile(path: JsString)
  {
    function Status(): (s: int)
      ensures s == 400 <==> InvalidPath?
      ensures s == 404 <==> NotFound?
      ensures s == 200 <==> SendFile?
    {
      match this
      case InvalidPath => 400
      case NotFound => 404
      case SendFile(_) => 200
    }
  }

  /**
   * The route handler. `restParam` is `req.params[0]`: `''` when the wildcard
   * matched nothing, and `None` covers `undefined`; `existing` is what `fs.pathExists` would answer `true` for.
   */
  function Serve(root: JsString, folder: JsString, restParam: Option<JsString>, existing: set<JsString>): (r: ServeResponse)
    ensures var filePath := RequestedPath(root, folder, OrEmpty(restParam));
      && (r.InvalidPath? <==> !StartsWith(filePath, SitesRoot(root)))
      && (r.NotFound? <==> StartsWith(filePath, SitesRoot(root)) && filePath !in existing)
      && (r.SendFile? ==> r.path == filePath && StartsWith(r.path, SitesRoot(root)) && r.path in existing)
  {
    var filePath := RequestedPath(root, folder, OrEmpty(restParam));
    if !StartsWith(filePath, SitesRoot(root)) then InvalidPath
    else if filePath !in existing then NotFound
    else SendFile(filePath)
  }

  /** The containment check comes first: a rejected request is rejected whatever exists on disk. */
  lemma RejectionIgnoresExistence(root: JsString, folder: JsString, restParam: Option<JsString>, e1: set<JsString>, e2: set<JsString>)
    ensures Serve(root, folder, restParam, e1).InvalidPath? == Serve(root, folder, restParam, e2).InvalidPath?
    ensures Serve(root, folder, restParam, e1).InvalidPath? ==> Serve(root, folder, restParam, {}).InvalidPath?
  {
  }

  /** Every file the route sends is named by a string that starts with the sites directory. */
  lemma SentFilesStartWithSitesRoot(root: JsString, folder: JsString, restParam: Option<JsString>, existing: set<JsString>)
    ensures Serve(root, folder, restParam, existing).SendFile? ==>
      StartsWith(Serve(root, folder, restParam, existing).path, SitesRoot(root))
  {
  }

  /** The sites directory of an absolute root: the root's segments followed by `sites`. */
  lemma SitesRootShape(root: JsString)
    requires IsAbsolute(root)
    ensures Segments(root) + [SitesDirName] != []
    ensures SitesRoot(root) == Render(true, Segments(root) + [SitesDirName], false)
  {
    var args := [root, SitesDirName];
    JoinAbsolute(args);
    NonEmptyKeepsAll(args);
    SplitNoSlash(SitesDirName);
    assert SplitAll(args) == Split(root) + [SitesDirName] by {
      assert SplitAll(args[1..]) == Split(SitesDirName) + SplitAll([]);
    }
    ResolveAppend([], Split(root), [SitesDirName], false);
    var raw := JoinWith(args);
    assert raw == root + [Slash] + SitesDirName;
    assert raw[|raw| - 1] == 0x73;
    SegmentsCanonical(root);
  }

  /**
   * Without `..` pieces in `folder` and `rest`, the joined path resolves to the
   * root's segments, `sites`, then the plain pieces of `folder` and of `rest`.
   */
  lemma RequestedSegments(root: JsString, folder: JsString, rest: JsString)
    requires IsAbsolute(root)
    requires NoDotDot(folder) && NoDotDot(rest)
    ensures var raw := JoinWith(NonEmpty([root, SitesDirName, folder, rest]));
      && RequestedPath(root, folder, rest) == Render(true, Segments(raw), HasTrailingSlash(raw))
      && Segments(raw) == Segments(root) + [SitesDirName] + PlainOnly(Split(folder)) + PlainOnly(Split(rest))
  {
    RequestedPathResolves(root, folder, rest);
    var s0 := Segments(root) + [SitesDirName];
    ResolveAppend(s0, Split(folder), Split(rest), false);
    ResolveWithoutDotDot(s0, Split(folder), false);
    ResolveWithoutDotDot(s0 + PlainOnly(Split(folder)), Split(rest), false);
  }

  /** The string `RequestedPath` is the sites directory or lies below it, when no piece is `..`. */
  lemma RequestedUnderSitesRoot(root: JsString, folder: JsString, rest: JsString)
    requires IsAbsolute(root)
    requires NoDotDot(folder) && NoDotDot(rest)
    ensures var p, base := RequestedPath(root, folder, rest), SitesRoot(root);
      p == base || StartsWith(p, base + [Slash])
  {
    RequestedSegments(root, folder, rest);
    SitesRootShape(root);
    var r0 := Segments(root);
    SegmentsNonEmpty(root);
    var a, b := PlainOnly(Split(folder)), PlainOnly(Split(rest));
    PlainOnlyNonEmpty(Split(folder));
    PlainOnlyNonEmpty(Split(rest));
    SeqAssoc(r0 + [SitesDirName], a, b);
    NonEmptyConcat(r0, [SitesDirName]);
    NonEmptyConcat(a, b);
    var raw := JoinWith(NonEmpty([root, SitesDirName, folder, rest]));
    RenderExtends(r0 + [SitesDirName], a + b, HasTrailingSlash(raw));
  }

  /**
   * With no `..` piece in `folder` and `rest`, the request passes the check, and
   * in the stronger sense the check does not test: the path is the sites
   * directory or lies below it segment by segment.
   */
  lemma NoDotDotStaysUnderSitesRoot(root: JsString, folder: JsString, restParam: Option<JsString>, existing: set<JsString>)
    requires IsAbsolute(root)
    requires NoDotDot(folder) && NoDotDot(OrEmpty(restParam))
    ensures !Serve(root, folder, restParam, existing).InvalidPath?
    ensures var p, base := RequestedPath(root, folder, OrEmpty(restParam)), SitesRoot(root);
      p == base || StartsWith(p, base + [Slash])
  {
    var p, base := RequestedPath(root, folder, OrEmpty(restParam)), SitesRoot(root);
    RequestedUnderSitesRoot(root, folder, OrEmpty(restParam));
    assert StartsWith(p, base) by {
      if p != base {
        assert p[..|base|] == (p[..|base| + 1])[..|base|];
      }
    }
  }

  /** `path.join(__dirname, 'sites', folder)`: the directory the upload handler created. */
  function SiteDir(root: JsString, folder: JsString): JsString
  {
    Join([root, SitesDirName, folder])
  }

  /** A folder made by the upload handler is one plain path segment when the id has no slash. */
  lemma FolderIsOneSegment(webName: JsString, id: JsString)
    requires Slash !in id
    ensures IsPlain(FolderName(SafeName(webName), id))
    ensures Split(FolderName(SafeName(webName), id)) == [FolderName(SafeName(webName), id)]
  {
    var safe := SafeName(webName);
    var f := FolderName(safe, id);
    SafeNameIsSafe(webName);
    FolderNameParts(safe, id);
    assert Slash !in safe by {
      forall i | 0 <= i < |safe| ensures safe[i] != Slash {
        assert IsSafeUnit(safe[i]);
      }
    }
    assert Slash !in f;
    assert f[|safe|] == Hyphen;
    SplitNoSlash(f);
  }

  /** `join(root, 'sites', folder)` for a one-segment folder: the root's segments, `sites`, the folder. */
  lemma SiteDirSegments(root: JsString, folder: Segment)
    requires IsAbsolute(root)
    requires IsPlain(folder)
    ensures SiteDir(root, folder) == Render(true, Segments(root) + [SitesDirName] + [folder], false)
  {
    var s0 := Segments(root) + [SitesDirName];
    var none: JsString := [];
    var args := [root, SitesDirName, folder];
    assert NonEmpty([root, SitesDirName, folder, none]) == NonEmpty(args) by {
      assert args + [none] == [root, SitesDirName, folder, none];
      NonEmptyDropsEmptyLast(args);
    }
    assert SiteDir(root, folder) == RequestedPath(root, folder, none);
    RequestedPathResolves(root, folder, none);
    SplitNoSlash(folder);
    assert Split(none) == [none];
    assert Resolve(s0, [folder] + [none], false) == s0 + [folder] by {
      ResolveAppend(s0, [folder], [none], false);
    }
    JoinLastUnit(args);
    assert folder[|folder| - 1] in folder;
  }

  /** The directory of a one-segment folder is the sites directory, a slash, and the folder. */
  lemma SiteDirShape(root: JsString, folder: Segment)
    requires IsAbsolute(root)
    requires IsPlain(folder)
    ensures SiteDir(root, folder) == Render(true, Segments(root) + [SitesDirName] + [folder], false)
    ensures SiteDir(root, folder) == SitesRoot(root) + [Slash] + folder
  {
    var r0 := Segments(root);
    SiteDirSegments(root, folder);
    SegmentsNonEmpty(root);
    SitesRootShape(root);
    NonEmptyConcat(r0, [SitesDirName]);
    RenderLast(r0 + [SitesDirName], folder);
    RenderNonEmpty(true, r0 + [SitesDirName], false);
    assert RootPrefix(r0 + [SitesDirName]) == SitesRoot(root) + [Slash];
  }

  /**
   * For a folder that is one plain segment and a sub-path with no `..` piece, the
   * requested path is the site's own directory or lies below it.
   */
  lemma OneSegmentFolderContainment(root: JsString, folder: Segment, rest: JsString)
    requires IsAbsolute(root)
    requires IsPlain(folder)
    requires NoDotDot(rest)
    ensures var dir, p := SiteDir(root, folder), RequestedPath(root, folder, rest);
      p == dir || StartsWith(p, dir + [Slash])
  {
    var r0 := Segments(root);
    SplitNoSlash(folder);
    assert NoDotDot(folder);
    RequestedSegments(root, folder, rest);
    assert PlainOnly(Split(folder)) == [folder];
    SiteDirShape(root, folder);
    SegmentsNonEmpty(root);
    NonEmptyConcat(r0, [SitesDirName]);
    NonEmptyConcat(r0 + [SitesDirName], [folder]);
    PlainOnlyNonEmpty(Split(rest));
    var raw := JoinWith(NonEmpty([root, SitesDirName, folder, rest]));
    RenderExtends(r0 + [SitesDirName] + [folder], PlainOnly(Split(rest)), HasTrailingSlash(raw));
  }

  /**
   * For the folder of an uploaded site and a sub-path with no `..` piece, the
   * served path is that site's directory or lies below it.
   */
  lemma UploadedSiteContainment(root: JsString, webName: JsString, id: JsString, rest: JsString)
    requires IsAbsolute(root)
    requires IsUuidV4(id)
    requires NoDotDot(rest)
    ensures var folder := FolderName(SafeName(webName), id);
      var dir, p := SiteDir(root, folder), RequestedPath(root, folder, rest);
      && dir == SitesRoot(root) + [Slash] + folder
      && (p == dir || StartsWith(p, dir + [Slash]))
  {
    var folder := FolderName(SafeName(webName), id);
    assert Slash !in id by {
      forall i | 0 <= i < |id| ensures id[i] != Slash {
        assert i in {8, 13, 18, 23} || IsLowerHexDigit(id[i]);
      }
    }
    FolderIsOneSegment(webName, id);
    SiteDirShape(root, folder);
    OneSegmentFolderContainment(root, folder, rest);
  }

  /** A common prefix does not change whether one string starts with another. */
  lemma StartsWithAfterCommon(pre: JsString, x: JsString, y: JsString)
    ensures StartsWith(pre + x, pre + y) <==> StartsWith(x, y)
  {
    if StartsWith(pre + x, pre + y) {
      assert x[..|y|] == (pre + x)[|pre|..|pre| + |y|];
      assert y == (pre + y)[|pre|..];
    }
    if StartsWith(x, y) {
      assert (pre + x)[..|pre + y|] == pre + x[..|y|];
    }
  }

  /** The string a non-empty stack is written as, split before its last segment. */
  lemma RenderLast(stack: seq<Segment>, last: Segment)
    requires forall i | 0 <= i < |stack| :: stack[i] != []
    requires last != []
    ensures Render(true, stack + [last], false) == RootPrefix(stack) + last
  {
    NonEmptyConcat(stack, [last]);
    RenderNonEmpty(true, stack + [last], false);
    if stack == [] {
      assert stack + [last] == [last];
    } else {
      JoinWithAppend(stack, [last]);
      assert JoinWith([last]) == last;
      SeqAssoc([Slash] + JoinWith(stack), [Slash], last);
      SeqAssoc([Slash], JoinWith(stack), [Slash] + last);
    }
  }

  /** The written-out absolute path of a stack, followed by the slash before a further segment. */
  function RootPrefix(stack: seq<Segment>): JsString
  {
    if stack == [] then [Slash] else [Slash] + JoinWith(stack) + [Slash]
  }

  /**
   * A request for folder `..` with a plain sub-path `x` resolves to `x` beside
   * the sites directory. The check rejects it exactly when `x` does not start
   * with the string `sites`; when `x` is a sibling such as `sites-x`, the file
   * is sent although it lies outside the sites directory.
   */
  lemma ParentFolderRequest(root: JsString, x: Segment, existing: set<JsString>)
    requires IsAbsolute(root)
    requires IsPlain(x)
    ensures RequestedPath(root, DotDotSegment, x) == Render(true, Segments(root) + [x], false)
    ensures Serve(root, DotDotSegment, Some(x), existing).InvalidPath? <==> !StartsWith(x, SitesDirName)
    ensures StartsWith(x, SitesDirName) && x != SitesDirName ==>
      var p, base := RequestedPath(root, DotDotSegment, x), SitesRoot(root);
      p != base && !StartsWith(p, base + [Slash])
  {
    var r0 := Segments(root);
    ParentFolderSegments(root, x);
    SegmentsNonEmpty(root);
    SitesRootShape(root);
    RenderLast(r0, x);
    RenderLast(r0, SitesDirName);
    var pre := RootPrefix(r0);
    var p, base := pre + x, pre + SitesDirName;
    assert RequestedPath(root, DotDotSegment, x) == p;
    assert SitesRoot(root) == base;
    StartsWithAfterCommon(pre, x, SitesDirName);
    if StartsWith(x, SitesDirName) && x != SitesDirName {
      SiblingOutside(pre, x);
    }
  }

  /** A slash-free name that merely starts with `sites` is neither the sites directory nor below it. */
  lemma SiblingOutside(pre: JsString, x: Segment)
    requires Slash !in x && x != SitesDirName
    ensures pre + x != pre + SitesDirName
    ensures !StartsWith(pre + x, pre + SitesDirName + [Slash])
  {
    SeqAssoc(pre, SitesDirName, [Slash]);
    StartsWithAfterCommon(pre, x, SitesDirName + [Slash]);
    if |x| > |SitesDirName| {
      assert x[|SitesDirName|] in x;
    }
    assert (pre + x)[|pre|..] == x;
    assert (pre + SitesDirName)[|pre|..] == SitesDirName;
  }

  /** `join(root, 'sites', '..', x)`: the `..` pops `sites` and `x` takes its place. */
  lemma ParentFolderSegments(root: JsString, x: Segment)
    requires IsAbsolute(root)
    requires IsPlain(x)
    ensures RequestedPath(root, DotDotSegment, x) == Render(true, Segments(root) + [x], false)
  {
    var r0 := Segments(root);
    RequestedPathResolves(root, DotDotSegment, x);
    SplitNoSlash(DotDotSegment);
    SplitNoSlash(x);
    assert Resolve(r0 + [SitesDirName], [DotDotSegment] + [x], false) == r0 + [x] by {
      assert Step(r0 + [SitesDirName], DotDotSegment, false) == r0;
      ResolveAppend(r0 + [SitesDirName], [DotDotSegment], [x], false);
    }
    JoinLastUnit([root, SitesDirName, DotDotSegment, x]);
    assert x[|x| - 1] in x;
  }

  /** `join(root, 'sites', folder, rest)` resolves the pieces of `folder` and `rest` on top of the sites directory. */
  lemma RequestedPathResolves(root: JsString, folder: JsString, rest: JsString)
    requires IsAbsolute(root)
    ensures var raw := JoinWith(NonEmpty([root, SitesDirName, folder, rest]));
      && RequestedPath(root, folder, rest) == Render(true, Segments(raw), HasTrailingSlash(raw))
      && Segments(raw) == Resolve(Segments(root) + [SitesDirName], Split(folder) + Split(rest), false)
  {
    var args := [root, SitesDirName, folder, rest];
    JoinAbsolute(args);
    SplitNoSlash(SitesDirName);
    SplitAllFour(root, SitesDirName, folder, rest);
    var r0 := Segments(root);
    ResolveAppend([], Split(root), [SitesDirName] + (Split(folder) + Split(rest)), false);
    ResolveAppend(r0, [SitesDirName], Split(folder) + Split(rest), false);
  }

  /** The pieces of four `join` arguments, in order. */
  lemma SplitAllFour(a: JsString, b: JsString, c: JsString, d: JsString)
    ensures SplitAll([a, b, c, d]) == Split(a) + (Split(b) + (Split(c) + Split(d)))
  {
    var args := [a, b, c, d];
    assert SplitAll(args[3..]) == Split(d) + SplitAll([]);
    assert SplitAll(args[2..]) == Split(c) + SplitAll(args[3..]);
    assert SplitAll(args[1..]) == Split(b) + SplitAll(args[2..]);
  }

  /**
   * What the string check does not stop, across sites: under the folder `a`, the
   * sub-path `../b/r` names exactly what the folder `b` with sub-path `r` names,
   * and is served exactly as that request is.
   */
  lemma CrossSiteRequest(root: JsString, a: Segment, b: Segment, r: JsString, existing: set<JsString>)
    requires IsAbsolute(root)
    requires IsPlain(a) && IsPlain(b)
    requires r != [] && NoDotDot(r)
    ensures RequestedPath(root, a, DotDotSegment + [Slash] + b + [Slash] + r) == RequestedPath(root, b, r)
    ensures Serve(root, a, Some(DotDotSegment + [Slash] + b + [Slash] + r), existing) == Serve(root, b, Some(r), existing)
    ensures !Serve(root, b, Some(r), existing).InvalidPath?
  {
    CrossSitePaths(root, a, b, r);
    SplitNoSlash(b);
    assert NoDotDot(b);
    NoDotDotStaysUnderSitesRoot(root, b, Some(r), existing);
  }

  /** `join(root, 'sites', a, '../b/r')` and `join(root, 'sites', b, r)` are the same string. */
  lemma CrossSitePaths(root: JsString, a: Segment, b: Segment, r: JsString)
    requires IsAbsolute(root)
    requires IsPlain(a) && IsPlain(b)
    requires r != []
    ensures RequestedPath(root, a, DotDotSegment + [Slash] + b + [Slash] + r) == RequestedPath(root, b, r)
  {
    var rest := DotDotSegment + [Slash] + b + [Slash] + r;
    CrossSiteStacks(Segments(root) + [SitesDirName], a, b, r);
    RequestedPathResolves(root, a, rest);
    RequestedPathResolves(root, b, r);
    JoinLastUnit([root, SitesDirName, a, rest]);
    JoinLastUnit([root, SitesDirName, b, r]);
    assert rest[|rest| - 1] == r[|r| - 1];
  }

  /** The `..` of `../b/r` pops the folder `a` that precedes it. */
  lemma CrossSiteStacks(s0: seq<Segment>, a: Segment, b: Segment, r: JsString)
    requires IsPlain(a) && IsPlain(b)
    ensures Resolve(s0, Split(a) + Split(DotDotSegment + [Slash] + b + [Slash] + r), false) ==
            Resolve(s0, Split(b) + Split(r), false)
  {
    SplitNoSlash(a);
    SplitNoSlash(b);
    SplitNoSlash(DotDotSegment);
    SplitAppend(DotDotSegment, b);
    SplitAppend(DotDotSegment + [Slash] + b, r);
    assert Split(DotDotSegment + [Slash] + b + [Slash] + r) == [DotDotSegment] + ([b] + Split(r));
    ResolveAppend(s0, [a], [DotDotSegment] + ([b] + Split(r)), false);
    ResolveAppend(s0 + [a], [DotDotSegment], [b] + Split(r), false);
    assert (s0 + [a])[..|s0|] == s0;
  }

  /** `p` is the directory `dir` itself or lies below it: a prefix that ends at a segment boundary. */
  predicate WithinDir(p: JsString, dir: JsString)
  {
    p == dir || StartsWith(p, dir + [Slash])
  }

  /**
   * The route with the containment check the prefix test stands for: a path is
   * accepted only when it is the sites directory or continues it with a `/`.
   */
  function ServeContained(root: JsString, folder: JsString, restParam: Option<JsString>, existing: set<JsString>): (r: ServeResponse)
    ensures var filePath := RequestedPath(root, folder, OrEmpty(restParam));
      && (r.InvalidPath? <==> !WithinDir(filePath, SitesRoot(root)))
      && (r.NotFound? <==> WithinDir(filePath, SitesRoot(root)) && filePath !in existing)
      && (r.SendFile? ==> r.path == filePath && WithinDir(r.path, SitesRoot(root)) && r.path in existing)
  {
    var filePath := RequestedPath(root, folder, OrEmpty(restParam));
    if !WithinDir(filePath, SitesRoot(root)) then InvalidPath
    else if filePath !in existing then NotFound
    else SendFile(filePath)
  }

  /** Being within a directory implies starting with its name. */
  lemma WithinDirStartsWith(p: JsString, dir: JsString)
    ensures WithinDir(p, dir) ==> StartsWith(p, dir)
  {
    if StartsWith(p, dir + [Slash]) {
      assert p[..|dir|] == (dir + [Slash])[..|dir|];
    }
  }

  /**
   * The corrected check is never more permissive than the prefix test: what it
   * accepts the route as written accepts, and answers the same way.
   */
  lemma ContainedIsStricter(root: JsString, folder: JsString, restParam: Option<JsString>, existing: set<JsString>)
    ensures Serve(root, folder, restParam, existing).InvalidPath? ==>
      ServeContained(root, folder, restParam, existing).InvalidPath?
    ensures !ServeContained(root, folder, restParam, existing).InvalidPath? ==>
      ServeContained(root, folder, restParam, existing) == Serve(root, folder, restParam, existing)
  {
    WithinDirStartsWith(RequestedPath(root, folder, OrEmpty(restParam)), SitesRoot(root));
  }

  /** On requests without `..` segments both checks agree. */
  lemma ContainedAgreesWithoutDotDot(root: JsString, folder: JsString, restParam: Option<JsString>, existing: set<JsString>)
    requires IsAbsolute(root)
    requires NoDotDot(folder) && NoDotDot(OrEmpty(restParam))
    ensures ServeContained(root, folder, restParam, existing) == Serve(root, folder, restParam, existing)
    ensures !ServeContained(root, folder, restParam, existing).InvalidPath?
  {
    NoDotDotStaysUnderSitesRoot(root, folder, restParam, existing);
  }

  /** The corrected check rejects the request for a sibling of the sites directory that the prefix test lets through. */
  lemma ContainedRejectsSibling(root: JsString, x: Segment, existing: set<JsString>)
    requires IsAbsolute(root)
    requires IsPlain(x) && x != SitesDirName
    ensures ServeContained(root, DotDotSegment, Some(x), existing).InvalidPath?
  {
    ParentFolderRequest(root, x, existing);
    WithinDirStartsWith(RequestedPath(root, DotDotSegment, x), SitesRoot(root));
  }
}
