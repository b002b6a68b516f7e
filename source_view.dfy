/**
  `SourceView`: the `/src/<path_to>` address space of the source archive.
  An address is a package name alone, or `package/version[/sub-path]`; the
  version `latest` is answered by a redirect to the newest listed version.
  The package registry and the on-disk location lookup are outside this
  model and arrive as the fields of an `Archive`.
 */
module SourceView {

  import opened Wrappers
  import opened PathStrings
  import opened VersionOrder
  import opened HttpErrors

  /** What constructing a `Location` yields: one of its two exceptions, or a node and its three tests. */
  datatype Lookup =
    | InvalidPackageOrVersion
    | FileOrFolderNotFound
    | Found(isSymlink: bool, isDir: bool, isFile: bool)

  /**
    The collaborators: the version numbers listed for a package (None when
    `list_versions_from_name` raises `InvalidPackageOrVersionError`), the
    location lookup, and the Debian version comparator.
   */
  datatype Archive = Archive(
    versionsOf: string -> Option<seq<string>>,
    locate: (string, string, string) -> Lookup,
    compare: Comparator)

  /** A parsed `path_to`. */
  datatype SourcePath =
    | PackagePath(name: string)
    | LocationPath(package: string, version: string, path: string)

  /** The context a source page is rendered from. */
  datatype SourceContext =
    | PackagePage(package: string, versions: seq<string>, path: string)
    | DirectoryPage(package: string, version: string, path: string, toplevel: bool)
    | FilePage(package: string, version: string, path: string)
    | RedirectTo(target: string)

  /**
    Splits `path_to` on `/`: one piece is a package name; otherwise the first
    two pieces are package and version and the rest, re-joined, the sub-path.
   */
  function ParseSourcePath(pathTo: string): (r: SourcePath)
    ensures r.PackagePath? <==> '/' !in pathTo
    ensures r.PackagePath? ==> r.name == pathTo
    ensures r.LocationPath? ==> '/' !in r.package && '/' !in r.version
    ensures r.LocationPath? ==>
      || pathTo == r.package + "/" + r.version + "/" + r.path
      || (r.path == "" && pathTo == r.package + "/" + r.version)
  {
    var parts := Split(pathTo, '/');
    if |parts| == 1 then
      JoinSplit(pathTo, '/');
      PackagePath(parts[0])
    else
      SplitShape(pathTo, '/');
      assert |parts| == 2 ==> parts[2..] == [];
      LocationPath(parts[0], parts[1], Join(parts[2..], '/'))
  }

  /** The address `_handle_latest_version` redirects to: no trailing `/` for an empty sub-path. */
  function LocationAddress(package: string, version: string, path: string): (r: string)
    ensures r == package + "/" + version + (if path == "" then "" else "/" + path)
  {
    if path == "" then
      JoinPair(package, version, '/');
      Join([package, version], '/')
    else
      JoinTriple(package, version, path, '/');
      Join([package, version, path], '/')
  }

  /** Parsing the address built for a location gives that location back. */
  lemma ParseLocationAddress(package: string, version: string, path: string)
    requires '/' !in package && '/' !in version
    ensures ParseSourcePath(LocationAddress(package, version, path)) == LocationPath(package, version, path)
  {
    var address := LocationAddress(package, version, path);
    SplitWord(version, '/');
    if path == "" {
      JoinPair(package, version, '/');
      SplitAfterWord(package, '/', version);
      var parts := Split(address, '/');
      assert parts == [package, version];
      assert parts[2..] == [];
    } else {
      JoinTriple(package, version, path, '/');
      assert address == package + ['/'] + (version + ['/'] + path);
      SplitAfterWord(package, '/', version + ['/'] + path);
      SplitAfterWord(version, '/', path);
      var parts := Split(address, '/');
      assert parts == [package, version] + Split(path, '/');
      assert parts[2..] == Split(path, '/');
      JoinSplit(path, '/');
    }
  }

  /** `_render_package`: the versions page, or 404 for an unknown package. */
  function RenderPackage(archive: Archive, name: string, pathTo: string): (r: ViewOutcome<SourceContext>)
    ensures r.Raised? <==> archive.versionsOf(name).None?
    ensures r.Raised? ==> r.error == Http404Error
    ensures r.Returned? ==> r.value == PackagePage(name, archive.versionsOf(name).value, pathTo)
  {
    match archive.versionsOf(name)
    case None => Raised(Http404Error)
    case Some(versions) => Returned(PackagePage(name, versions, pathTo))
  }

  /** `_render_directory`: a listing is toplevel exactly when the sub-path is empty. */
  function RenderDirectory(package: string, version: string, path: string): (r: SourceContext)
    ensures r.DirectoryPage?
    ensures r.toplevel <==> path == ""
  {
    DirectoryPage(package, version, path, path == "")
  }

  /**
    `_render_location`: a failed lookup is 404; a symbolic link is 403 before
    the directory and file tests; a directory is listed, a file is shown, and
    anything else is 404.
   */
  function RenderLocation(archive: Archive, package: string, version: string, path: string)
    : (r: ViewOutcome<SourceContext>)
    ensures var l := archive.locate(package, version, path);
      && (r == Raised(Http403Error) <==> l.Found? && l.isSymlink)
      && (r.Returned? ==> l.Found? && !l.isSymlink)
      && (r.Returned? <==> l.Found? && !l.isSymlink && (l.isDir || l.isFile))
      && (r.Raised? ==> r.error in {Http403Error, Http404Error})
      && (r.Returned? && r.value.DirectoryPage? <==> l.Found? && !l.isSymlink && l.isDir)
      && (r.Returned? && r.value.FilePage? <==> l.Found? && !l.isSymlink && !l.isDir && l.isFile)
    ensures r.Returned? ==> r.value == RenderDirectory(package, version, path) || r.value == FilePage(package, version, path)
  {
    match archive.locate(package, version, path)
    case FileOrFolderNotFound => Raised(Http404Error)
    case InvalidPackageOrVersion => Raised(Http404Error)
    case Found(isSymlink, isDir, isFile) =>
      if isSymlink then Raised(Http403Error)
      else if isDir then Returned(RenderDirectory(package, version, path))
      else if isFile then Returned(FilePage(package, version, path))
      else Raised(Http404Error)
  }

  /**
    `_handle_latest_version`: 404 for an unknown package; otherwise a redirect
    to the same sub-path under the last element of the sorted version list
    (an empty list has none, and the IndexError escapes the view).
   */
  function HandleLatestVersion(archive: Archive, package: string, path: string)
    : (r: ViewOutcome<SourceContext>)
    ensures archive.versionsOf(package).None? ==> r == Raised(Http404Error)
    ensures archive.versionsOf(package) == Some([]) ==> r == Raised(UncaughtError)
    ensures archive.versionsOf(package).Some? && |archive.versionsOf(package).value| > 0 ==> r.Returned?
    ensures r.Returned? ==> r.value.RedirectTo?
    ensures r.Raised? ==> r.error in {Http404Error, UncaughtError}
  {
    match archive.versionsOf(package)
    case None => Raised(Http404Error)
    case Some(versions) =>
      match LatestVersion(versions, archive.compare)
      case None => Raised(UncaughtError)
      case Some(version) => Returned(RedirectTo(LocationAddress(package, version, path)))
  }

  /**
    `SourceView.get_objects`: a package page for an address without `/`,
    otherwise the latest-version redirect or the location. Only 404, 403 and
    the escaping IndexError can be raised.
   */
  function GetObjects(archive: Archive, pathTo: string): (r: ViewOutcome<SourceContext>)
    ensures '/' !in pathTo ==> r == RenderPackage(archive, pathTo, pathTo)
    ensures var p := ParseSourcePath(pathTo);
      p.LocationPath? ==>
        r == if p.version == "latest" then HandleLatestVersion(archive, p.package, p.path)
             else RenderLocation(archive, p.package, p.version, p.path)
    ensures r.Raised? ==> r.error in {Http404Error, Http403Error, UncaughtError}
    ensures r.Returned? && r.value.PackagePage? ==> '/' !in pathTo
    ensures r.Returned? && r.value.RedirectTo? ==>
      ParseSourcePath(pathTo).LocationPath? && ParseSourcePath(pathTo).version == "latest"
    ensures r.Returned? && (r.value.DirectoryPage? || r.value.FilePage?) ==>
      ParseSourcePath(pathTo).LocationPath? && ParseSourcePath(pathTo).version != "latest"
  {
    match ParseSourcePath(pathTo)
    case PackagePath(name) => RenderPackage(archive, name, pathTo)
    case LocationPath(package, version, path) =>
      if version == "latest" then HandleLatestVersion(archive, package, path)
      else RenderLocation(archive, package, version, path)
  }

  /** A package page is served exactly for addresses without `/`. */
  lemma PackagePageIffNoSlash(archive: Archive, pathTo: string)
    ensures GetObjects(archive, pathTo).Returned? && GetObjects(archive, pathTo).value.PackagePage?
      <==> '/' !in pathTo && archive.versionsOf(pathTo).Some?
  {
    var p := ParseSourcePath(pathTo);
    if p.LocationPath? && p.version == "latest" {
      var r := HandleLatestVersion(archive, p.package, p.path);
      assert r.Returned? ==> r.value.RedirectTo?;
    }
  }

  /** An unknown package is 404 on its package page and on `latest`, before any version is chosen. */
  lemma UnknownPackageIsNotFound(archive: Archive, pathTo: string)
    requires var p := ParseSourcePath(pathTo);
      || (p.PackagePath? && archive.versionsOf(p.name).None?)
      || (p.LocationPath? && p.version == "latest" && archive.versionsOf(p.package).None?)
    ensures GetObjects(archive, pathTo) == Raised(Http404Error)
  {
  }

  /** `latest` is only ever answered by a redirect, never by a rendered location. */
  lemma LatestOnlyRedirects(archive: Archive, pathTo: string)
    requires ParseSourcePath(pathTo).LocationPath? && ParseSourcePath(pathTo).version == "latest"
    ensures var r := GetObjects(archive, pathTo);
      && (r.Returned? ==> r.value.RedirectTo?)
      && (r.Raised? ==> r.error in {Http404Error, UncaughtError})
  {
  }

  /** The redirect address is the requested one with `latest` replaced (bar a lone trailing `/`). */
  lemma ReplaceLatestSegment(pathTo: string, package: string, path: string, version: string)
    requires ParseSourcePath(pathTo) == LocationPath(package, "latest", path)
    requires pathTo != package + "/latest/"
    ensures LocationAddress(package, version, path) == package + "/" + version + pathTo[|package| + 7..]
  {
    var suffix := if path == "" then "" else "/" + path;
    assert pathTo == package + "/latest" + suffix;
    assert pathTo[|package| + 7..] == suffix;
    if path == "" {
      JoinPair(package, version, '/');
    } else {
      JoinTriple(package, version, path, '/');
    }
  }

  /**
    For a known package with versions, `latest` redirects to the address with
    the version segment replaced by the last maximum of the listed versions,
    and that address parses back to the requested sub-path under it.
   */
  lemma LatestRedirectsToNewest(archive: Archive, pathTo: string, package: string, path: string)
    requires ParseSourcePath(pathTo) == LocationPath(package, "latest", path)
    requires archive.versionsOf(package).Some? && |archive.versionsOf(package).value| > 0
    ensures var versions := archive.versionsOf(package).value;
      var newest := versions[LastMaximumIndex(versions, archive.compare)];
      && GetObjects(archive, pathTo) == Returned(RedirectTo(LocationAddress(package, newest, path)))
      && (pathTo != package + "/latest/" ==>
            LocationAddress(package, newest, path) == package + "/" + newest + pathTo[|package| + 7..])
      && ('/' !in newest ==>
            ParseSourcePath(LocationAddress(package, newest, path)) == LocationPath(package, newest, path))
  {
    var versions := archive.versionsOf(package).value;
    var newest := versions[LastMaximumIndex(versions, archive.compare)];
    LatestVersionIsLastMaximum(versions, archive.compare);
    if pathTo != package + "/latest/" {
      ReplaceLatestSegment(pathTo, package, path, newest);
    }
    if '/' !in newest {
      ParseLocationAddress(package, newest, path);
    }
  }

  /** A directory listing is toplevel exactly for `package/version` and `package/version/`. */
  lemma ToplevelIffVersionRoot(archive: Archive, pathTo: string, package: string, version: string,
                               path: string, toplevel: bool)
    requires GetObjects(archive, pathTo) == Returned(DirectoryPage(package, version, path, toplevel))
    ensures toplevel <==> pathTo == package + "/" + version || pathTo == package + "/" + version + "/"
  {
    var p := ParseSourcePath(pathTo);
    assert p == LocationPath(package, version, path);
    if pathTo == package + "/" + version + "/" + path && path != "" {
      assert |pathTo| > |package + "/" + version + "/"|;
    }
  }

  /** A symbolic link answers 403 in either output mode, whatever it points to. */
  lemma SymlinkIsForbidden(archive: Archive, pathTo: string, mode: string)
    requires var p := ParseSourcePath(pathTo);
      && p.LocationPath? && p.version != "latest"
      && archive.locate(p.package, p.version, p.path).Found?
      && archive.locate(p.package, p.version, p.path).isSymlink
    ensures var r := DispatchRequest(GetObjects(archive, pathTo), mode);
      r.ErrorResponse? && PageCode(r.page) == 403
  {
  }
}
