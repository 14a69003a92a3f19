/** Toolchain packages as values, and the per-package decisions of
    `qitoolchain.database.DataBase`: where a package comes from (URL,
    local directory, subversion), the checksum check after a download, and
    the install path that results. */
module Packages {
  import opened Wrappers
  import opened DepKinds

  /** A `QiPackage`, or an `SvnPackage` when `isSvn`. `deps` are the
      dependency sets its `package.xml` declares. */
  datatype Package = Package(
    name: string,
    version: Option<string>,
    checksum: Option<string>,
    url: Option<string>,
    directory: Option<string>,
    path: Option<string>,
    isSvn: bool,
    deps: DepSets)

  /** The exceptions of the database core. */
  datatype DbError =
    | NoSuchPackage(name: string)                          // remove_package, get_package
    | NoSource(name: string)                               // handle_package: no URL nor directory
    | BadChecksum(name: string, expected: string, actual: string) // download_package
    | FeedConflict(name: string)                           // load_package_xml, in strict mode

  /** Python truthiness of an optional string: present and non-empty. */
  predicate Truthy(o: Option<string>) {
    o.Some? && o.value != ""
  }

  // ----- POSIX paths -----

  /** `os.path.join(a, b)`. */
  function JoinPath(a: string, b: string): string {
    if b != [] && b[0] == '/' then b
    else if a == [] || a[|a| - 1] == '/' then a + b
    else a + "/" + b
  }

  /** The length of `p` up to and including its last '/', 0 without one. */
  function AfterLastSlash(p: string): (i: nat)
    ensures i <= |p|
  {
    if p == [] then 0 else if p[|p| - 1] == '/' then |p| else AfterLastSlash(p[..|p| - 1])
  }

  function RStripSlashes(s: string): string {
    if s != [] && s[|s| - 1] == '/' then RStripSlashes(s[..|s| - 1]) else s
  }

  /** `os.path.dirname(p)`. */
  function Dirname(p: string): string {
    var head := p[..AfterLastSlash(p)];
    if head != [] && exists k :: 0 <= k < |head| && head[k] != '/' then RStripSlashes(head) else head
  }

  // ----- handling one package -----

  /** The checksum branch and the path assignment of `download_package`,
      given the checksum of the archive that was downloaded from the
      package's URL. A mismatch is settled first by `update_checksums`
      (the archive's checksum is recorded), then by a missing checksum
      (accepted as is), and is an error otherwise. */
  function DownloadPackage(p: Package, packagesPath: string, updateChecksums: bool, archiveChecksum: string)
    : (r: Result<Package, DbError>)
    ensures r.Err? <==> p.checksum.Some? && p.checksum.value != archiveChecksum && !updateChecksums
    ensures r.Err? ==> r.error == BadChecksum(p.name, p.checksum.value, archiveChecksum)
    ensures r.Ok? ==> r.value == p.(checksum := r.value.checksum, path := Some(JoinPath(packagesPath, p.name)))
    // after a successful download the recorded checksum is the archive's, unless the feed gave none
    ensures r.Ok? ==> r.value.checksum == Some(archiveChecksum) || (r.value.checksum.None? && !updateChecksums)
    ensures r.Ok? && !updateChecksums ==> r.value.checksum == p.checksum
  {
    var checked :=
      if p.checksum != Some(archiveChecksum) then
        if updateChecksums then Ok(p.(checksum := Some(archiveChecksum)))
        else if p.checksum.None? then Ok(p)
        else Err(BadChecksum(p.name, p.checksum.value, archiveChecksum))
      else Ok(p);
    match checked
    case Err(e) => Err(e)
    case Ok(q) => Ok(q.(path := Some(JoinPath(packagesPath, p.name))))
  }

  /** `handle_local_package`: the package is used in place, from its
      directory taken relative to the feed's own directory and made native
      by `nativePath` (`qisys.sh.to_native_path`, which reads the file
      system). */
  function HandleLocalPackage(p: Package, feed: string, nativePath: string -> string): (r: Package)
    requires p.directory.Some?
    ensures r == p.(path := Some(nativePath(JoinPath(Dirname(feed), p.directory.value))))
  {
    p.(path := Some(nativePath(JoinPath(Dirname(feed), p.directory.value))))
  }

  /** `handle_svn_package`, without the checkout or update itself: the
      package lives under the toolchain's package directory. */
  function HandleSvnPackage(p: Package, packagesPath: string): (r: Package)
    ensures r == p.(path := Some(JoinPath(packagesPath, p.name)))
  {
    p.(path := Some(JoinPath(packagesPath, p.name)))
  }

  /** `handle_package`: a URL takes precedence over a directory, and a
      package with neither is an error. Only `path` and `checksum` change. */
  function HandlePackage(p: Package, feed: string, packagesPath: string, updateChecksums: bool,
                         archiveChecksum: string -> string, nativePath: string -> string): (r: Result<Package, DbError>)
    ensures Truthy(p.url) ==> r == DownloadPackage(p, packagesPath, updateChecksums, archiveChecksum(p.url.value))
    ensures !Truthy(p.url) && Truthy(p.directory) ==> r == Ok(HandleLocalPackage(p, feed, nativePath))
    ensures !Truthy(p.url) && !Truthy(p.directory) ==> r == Err(NoSource(p.name))
    ensures r.Ok? ==> r.value == p.(checksum := r.value.checksum, path := r.value.path)
  {
    if Truthy(p.url) then DownloadPackage(p, packagesPath, updateChecksums, archiveChecksum(p.url.value))
    else if Truthy(p.directory) then Ok(HandleLocalPackage(p, feed, nativePath))
    else Err(NoSource(p.name))
  }

  // ----- collections of packages -----

  /** The names of the packages of a list. */
  function NameSet(ps: seq<Package>): set<string> {
    set p | p in ps :: p.name
  }

  /** `[x for x in xs if f(x)]`. */
  function Filter<T(!new)>(xs: seq<T>, f: T -> bool): (r: seq<T>)
    ensures forall x :: x in r <==> x in xs && f(x)
    ensures |r| <= |xs|
    decreases |xs|
  {
    if xs == [] then []
    else
      var init := xs[..|xs| - 1];
      assert xs == init + [xs[|xs| - 1]];
      Filter(init, f) + (if f(xs[|xs| - 1]) then [xs[|xs| - 1]] else [])
  }

  /** Every package is stored under its own name: the invariant of
      `DataBase.packages`. */
  predicate KeyedByName(m: map<string, Package>) {
    forall k :: k in m ==> m[k].name == k
  }

  /** No two packages of the list share a name. */
  predicate UniqueNames(ps: seq<Package>) {
    forall i, j :: 0 <= i < j < |ps| ==> ps[i].name != ps[j].name
  }

  /** `vs` lists the packages of `m`, each once, in some order: what
      `m.values()` gives. */
  predicate Lists(vs: seq<Package>, m: map<string, Package>) {
    && NameSet(vs) == m.Keys
    && (forall p :: p in vs ==> p.name in m && m[p.name] == p)
    && UniqueNames(vs)
  }
}
