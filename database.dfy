/** `qitoolchain.database.DataBase`: the packages of one toolchain, kept in
    a map from package name to package and stored as a list of package
    records (the database file). */
module Database {
  import opened Wrappers
  import opened DepKinds
  import opened Packages
  import opened FeedDiff

  // ----- reading the database file -----

  /** `m[p.name] = p` for every record of `ps`, in order. */
  function InsertAll(m: map<string, Package>, ps: seq<Package>): (r: map<string, Package>)
    ensures r.Keys == m.Keys + NameSet(ps)
    decreases |ps|
  {
    if ps == [] then m
    else
      var init, p := ps[..|ps| - 1], ps[|ps| - 1];
      assert ps == init + [p];
      NameSetSnoc(init, p);
      InsertAll(m, init)[p.name := p]
  }

  lemma InsertAllSnoc(m: map<string, Package>, ps: seq<Package>, p: Package)
    ensures InsertAll(m, ps + [p]) == InsertAll(m, ps)[p.name := p]
  {
    assert (ps + [p])[..|ps|] == ps;
  }

  lemma ArchivesSnoc(xs: seq<Package>, x: Package)
    ensures Archives(xs + [x]) == Archives(xs) + (if x.isSvn then [] else [x])
  {
    assert (xs + [x])[..|xs|] == xs;
  }

  lemma SvnPackagesSnoc(xs: seq<Package>, x: Package)
    ensures SvnPackages(xs + [x]) == SvnPackages(xs) + (if x.isSvn then [x] else [])
  {
    assert (xs + [x])[..|xs|] == xs;
  }

  lemma ArchivesPrefix(xs: seq<Package>, i: nat)
    requires i < |xs|
    ensures Archives(xs[..i + 1]) == Archives(xs[..i]) + (if xs[i].isSvn then [] else [xs[i]])
  {
    assert xs[..i + 1] == xs[..i] + [xs[i]];
    ArchivesSnoc(xs[..i], xs[i]);
  }

  lemma SvnPackagesPrefix(xs: seq<Package>, i: nat)
    requires i < |xs|
    ensures SvnPackages(xs[..i + 1]) == SvnPackages(xs[..i]) + (if xs[i].isSvn then [xs[i]] else [])
  {
    assert xs[..i + 1] == xs[..i] + [xs[i]];
    SvnPackagesSnoc(xs[..i], xs[i]);
  }

  /** Records are filed under their own names. */
  lemma {:induction false} InsertAllKeyedByName(m: map<string, Package>, ps: seq<Package>)
    requires KeyedByName(m)
    ensures KeyedByName(InsertAll(m, ps))
    decreases |ps|
  {
    if ps != [] {
      InsertAllKeyedByName(m, ps[..|ps| - 1]);
    }
  }

  /** The last record of a name is the one kept. */
  lemma {:induction false} InsertAllLastWins(m: map<string, Package>, ps: seq<Package>, i: nat)
    requires i < |ps|
    requires forall j :: i < j < |ps| ==> ps[j].name != ps[i].name
    ensures InsertAll(m, ps)[ps[i].name] == ps[i]
    decreases |ps|
  {
    if i < |ps| - 1 {
      InsertAllLastWins(m, ps[..|ps| - 1], i);
    }
  }

  /** A name no record carries keeps its entry. */
  lemma {:induction false} InsertAllKeeps(m: map<string, Package>, ps: seq<Package>, k: string)
    requires k in m && k !in NameSet(ps)
    ensures InsertAll(m, ps)[k] == m[k]
    decreases |ps|
  {
    if ps != [] {
      var init, p := ps[..|ps| - 1], ps[|ps| - 1];
      assert ps == init + [p];
      NameSetSnoc(init, p);
      InsertAllKeeps(m, init, k);
    }
  }

  /** What `load` puts in the map: the `package` records in file order,
      then the `svn_package` records in file order, so that a later record
      replaces an earlier one of the same name and a subversion record
      replaces an archive record. */
  function Loaded(m: map<string, Package>, file: seq<Package>): map<string, Package> {
    InsertAll(InsertAll(m, Archives(file)), SvnPackages(file))
  }

  /** The last subversion record of a name is the package loaded. */
  lemma LoadedSvnWins(m: map<string, Package>, file: seq<Package>, i: nat)
    requires i < |SvnPackages(file)|
    requires forall j :: i < j < |SvnPackages(file)| ==> SvnPackages(file)[j].name != SvnPackages(file)[i].name
    ensures Loaded(m, file)[SvnPackages(file)[i].name] == SvnPackages(file)[i]
  {
    InsertAllLastWins(InsertAll(m, Archives(file)), SvnPackages(file), i);
  }

  /** Without a subversion record of that name, the last archive record
      of a name is the package loaded. */
  lemma LoadedArchiveWins(m: map<string, Package>, file: seq<Package>, i: nat)
    requires i < |Archives(file)|
    requires forall j :: i < j < |Archives(file)| ==> Archives(file)[j].name != Archives(file)[i].name
    requires Archives(file)[i].name !in NameSet(SvnPackages(file))
    ensures Loaded(m, file)[Archives(file)[i].name] == Archives(file)[i]
  {
    InsertAllLastWins(m, Archives(file), i);
    InsertAllKeeps(InsertAll(m, Archives(file)), SvnPackages(file), Archives(file)[i].name);
  }

  /** A record's position in a duplicate-free list has no later record of
      the same name. */
  lemma IndexOfUnique(ps: seq<Package>, p: Package) returns (i: nat)
    requires UniqueNames(ps) && p in ps
    ensures i < |ps| && ps[i] == p
    ensures forall j :: i < j < |ps| ==> ps[j].name != ps[i].name
  {
    i :| 0 <= i < |ps| && ps[i] == p;
  }

  /** Reading the records that list a map gives each name its entry. */
  lemma LoadedEntry(file: seq<Package>, m: map<string, Package>, k: string)
    requires Lists(file, m) && k in m
    ensures Loaded(map[], file)[k] == m[k]
  {
    var svn, arc := SvnPackages(file), Archives(file);
    var p :| p in file && p.name == k;
    if p.isSvn {
      FilterKeepsUniqueNames(file, (x: Package) => x.isSvn);
      var i := IndexOfUnique(svn, p);
      LoadedSvnWins(map[], file, i);
    } else {
      FilterKeepsUniqueNames(file, (x: Package) => !x.isSvn);
      var i := IndexOfUnique(arc, p);
      assert k !in NameSet(svn);
      LoadedArchiveWins(map[], file, i);
    }
  }

  /** `load` after `save` gives the saved packages back: reading the
      records that list a map rebuilds that map. */
  lemma LoadSaved(file: seq<Package>, m: map<string, Package>)
    requires Lists(file, m)
    ensures Loaded(map[], file) == m
  {
    LoadedNames(file, m);
    forall k | k in m ensures Loaded(map[], file)[k] == m[k] {
      LoadedEntry(file, m, k);
    }
  }

  /** Reading the records that list a map loads exactly its names. */
  lemma LoadedNames(file: seq<Package>, m: map<string, Package>)
    requires Lists(file, m)
    ensures Loaded(map[], file).Keys == m.Keys
  {
    FeedNames(file);
  }

  // ----- solve_deps -----

  /** `to_sort` of `solve_deps`: every installed package depends on the
      union of its selected dependency sets. */
  function DepGraph(m: map<string, Package>, kinds: set<Kind>): map<string, set<string>> {
    map k | k in m :: Selected(m[k].deps, kinds)
  }

  /** `[x.name for x in packages]`. */
  function Names(ps: seq<Package>): (r: seq<string>)
    ensures |r| == |ps| && forall i :: 0 <= i < |ps| ==> r[i] == ps[i].name
  {
    seq(|ps|, i requires 0 <= i < |ps| => ps[i].name)
  }

  /** The installed packages of the given names, in the order of the
      names; names that are not installed are skipped. */
  function Resolved(m: map<string, Package>, names: seq<string>): (r: seq<Package>)
    ensures |r| <= |names|
    ensures forall p :: p in r <==> exists n :: n in names && n in m && p == m[n]
    decreases |names|
  {
    if names == [] then []
    else
      var init, n := names[..|names| - 1], names[|names| - 1];
      assert names == init + [n];
      Resolved(m, init) + (if n in m then [m[n]] else [])
  }

  /** Resolving keeps the order of the names. */
  lemma {:induction false} ResolvedKeepsOrder(m: map<string, Package>, names: seq<string>, i: nat, j: nat)
    requires i < j < |names| && names[i] in m && names[j] in m
    ensures exists a, b :: 0 <= a < b < |Resolved(m, names)| &&
              Resolved(m, names)[a] == m[names[i]] && Resolved(m, names)[b] == m[names[j]]
    decreases |names|
  {
    var init, n := names[..|names| - 1], names[|names| - 1];
    var ri := Resolved(m, init);
    if j < |names| - 1 {
      ResolvedKeepsOrder(m, init, i, j);
      var a, b :| 0 <= a < b < |ri| && ri[a] == m[init[i]] && ri[b] == m[init[j]];
      assert Resolved(m, names)[a] == ri[a] && Resolved(m, names)[b] == ri[b];
    } else {
      assert m[init[i]] in ri;
      var a :| 0 <= a < |ri| && ri[a] == m[init[i]];
      assert Resolved(m, names)[a] == ri[a];
      assert Resolved(m, names)[|ri|] == m[n];
    }
  }

  /** The first loop of `solve_deps`: one entry per listed package. */
  method BuildGraph(m: map<string, Package>, vs: seq<Package>, kinds: set<Kind>) returns (g: map<string, set<string>>)
    requires Lists(vs, m)
    ensures g == DepGraph(m, kinds)
  {
    g := map[];
    var i := 0;
    while i < |vs|
      invariant 0 <= i <= |vs|
      invariant g.Keys == NameSet(vs[..i])
      invariant forall k :: k in g ==> k in m && g[k] == Selected(m[k].deps, kinds)
    {
      assert vs[..i + 1] == vs[..i] + [vs[i]];
      NameSetSnoc(vs[..i], vs[i]);
      g := g[vs[i].name := Selected(vs[i].deps, kinds)];
      i := i + 1;
    }
    assert vs[..i] == vs;
  }

  /** The second loop of `solve_deps`: the installed packages of the
      sorted names, in order. */
  method ResolveNames(m: map<string, Package>, names: seq<string>) returns (res: seq<Package>)
    ensures res == Resolved(m, names)
  {
    res := [];
    var i := 0;
    while i < |names|
      invariant 0 <= i <= |names|
      invariant res == Resolved(m, names[..i])
    {
      assert names[..i + 1][..i] == names[..i];
      if names[i] in m {
        res := res + [m[names[i]]];
      }
      i := i + 1;
    }
    assert names[..i] == names;
  }

  class DataBase {
    const name: string
    /** Where archive and subversion packages are installed. */
    const packagesPath: string
    var packages: map<string, Package>
    /** Whether a conflict between a feed and a package's own
        `package.xml` is fatal. */
    var strictFeed: bool
    /** The package records of the database file, as last written. */
    var file: seq<Package>

    ghost predicate Valid()
      reads this
    {
      KeyedByName(packages)
    }

    /** `DataBase(name, db_path)`: reads the database file. */
    constructor (name: string, packagesPath: string, file: seq<Package>)
      ensures this.name == name && this.packagesPath == packagesPath && this.file == file
      ensures packages == Loaded(map[], file)
      ensures strictFeed
      ensures Valid()
    {
      this.name := name;
      this.packagesPath := packagesPath;
      this.file := file;
      packages := map[];
      strictFeed := true;
      new;
      Load();
    }

    /** `load`: the `package` records, then the `svn_package` records. */
    method Load()
      modifies this`packages
      ensures packages == Loaded(old(packages), file)
      ensures old(Valid()) ==> Valid()
    {
      ghost var m0 := packages;
      LoadArchives();
      LoadSvnPackages();
      if KeyedByName(m0) {
        InsertAllKeyedByName(m0, Archives(file));
        InsertAllKeyedByName(InsertAll(m0, Archives(file)), SvnPackages(file));
      }
    }

    /** The loop of `load` over the `package` records. */
    method LoadArchives()
      modifies this`packages
      ensures packages == InsertAll(old(packages), Archives(file))
    {
      ghost var start := packages;
      ghost var loaded: seq<Package> := [];
      var records := file;
      var i := 0;
      while i < |records|
        invariant 0 <= i <= |records|
        invariant loaded == Archives(records[..i])
        invariant packages == InsertAll(start, loaded)
      {
        var record := records[i];
        ArchivesPrefix(records, i);
        if !record.isSvn {
          InsertAllSnoc(start, loaded, record);
          packages := packages[record.name := record];
          loaded := loaded + [record];
        }
        i := i + 1;
      }
      assert records[..i] == records;
    }

    /** The loop of `load` over the `svn_package` records. */
    method LoadSvnPackages()
      modifies this`packages
      ensures packages == InsertAll(old(packages), SvnPackages(file))
    {
      ghost var start := packages;
      ghost var loaded: seq<Package> := [];
      var records := file;
      var i := 0;
      while i < |records|
        invariant 0 <= i <= |records|
        invariant loaded == SvnPackages(records[..i])
        invariant packages == InsertAll(start, loaded)
      {
        var record := records[i];
        SvnPackagesPrefix(records, i);
        if record.isSvn {
          InsertAllSnoc(start, loaded, record);
          packages := packages[record.name := record];
          loaded := loaded + [record];
        }
        i := i + 1;
      }
      assert records[..i] == records;
    }

    /** `self.packages.values()`: every installed package once, in the
        map's (unspecified) order. */
    method Values() returns (vs: seq<Package>)
      requires Valid()
      ensures Lists(vs, packages)
    {
      vs := [];
      var todo := packages.Keys;
      while todo != {}
        invariant todo <= packages.Keys
        invariant NameSet(vs) == packages.Keys - todo
        invariant forall p :: p in vs ==> p.name in packages && packages[p.name] == p
        invariant UniqueNames(vs)
        decreases todo
      {
        var k :| k in todo;
        NameSetSnoc(vs, packages[k]);
        vs := vs + [packages[k]];
        todo := todo - {k};
      }
    }

    /** `save`: writes one record per installed package. */
    method Save()
      requires Valid()
      modifies this`file
      ensures Lists(file, packages)
      ensures Loaded(map[], file) == packages
    {
      file := Values();
      LoadSaved(file, packages);
    }

    /** `add_package(package)`, where `conflict` says whether
        `load_package_xml` raises `FeedConflict`. */
    method AddPackage(p: Package, conflict: bool) returns (r: Outcome<DbError>)
      requires Valid()
      modifies this`packages
      ensures r.Fail? <==> conflict && strictFeed
      ensures r.Fail? ==> r.error == FeedConflict(p.name) && packages == old(packages)
      ensures r.Pass? ==> packages == old(packages)[p.name := p]
      ensures r.Pass? ==> GetPackagePath(p.name) == p.path
      ensures Valid()
    {
      if conflict && strictFeed {
        return Fail(FeedConflict(p.name));
      }
      packages := packages[p.name := p];
      r := Pass;
    }

    /** `remove_package(name)`. */
    method RemovePackage(name: string) returns (r: Outcome<DbError>)
      requires Valid()
      modifies this`packages
      ensures r.Fail? <==> name !in old(packages)
      ensures r.Fail? ==> r.error == NoSuchPackage(name) && packages == old(packages)
      ensures r.Pass? ==> packages == old(packages) - {name}
      ensures r.Pass? ==> GetPackage(name, true) == Err(NoSuchPackage(name))
      ensures Valid()
    {
      if name !in packages {
        return Fail(NoSuchPackage(name));
      }
      packages := packages - {name};
      r := Pass;
    }

    /** `get_package_path(name)`: `None` when the package is missing, and
        also when it has no path. */
    function GetPackagePath(name: string): (r: Option<string>)
      reads this
      ensures r.Some? ==> name in packages && packages[name].path == r
      ensures name in packages ==> r == packages[name].path
    {
      if name in packages then packages[name].path else None
    }

    /** `get_package(name, raises)`. */
    function GetPackage(name: string, raises: bool): (r: Result<Option<Package>, DbError>)
      reads this
      ensures r.Err? <==> name !in packages && raises
      ensures r.Err? ==> r.error == NoSuchPackage(name)
      ensures r.Ok? ==> (r.value.Some? <==> name in packages)
      ensures r.Ok? && r.value.Some? ==> r.value.value == packages[name]
    {
      if name in packages then Ok(Some(packages[name]))
      else if raises then Err(NoSuchPackage(name))
      else Ok(None)
    }

    /** `solve_deps(roots, dep_types)` with the packages' dependencies as
        loaded: sorts the dependency graph of the installed packages from
        the roots' names, and keeps the names that are installed. */
    method SolveDeps(roots: seq<Package>, kinds: set<Kind>, sort: Sorter) returns (res: seq<Package>)
      requires Valid()
      ensures res == Resolved(packages, sort(DepGraph(packages, kinds), Names(roots)))
    {
      var vs := Values();
      var toSort := BuildGraph(packages, vs, kinds);
      res := ResolveNames(packages, sort(toSort, Names(roots)));
    }

    /** One turn of the loop of a phase of `update`. */
    method RunStep(env: Env, ph: Phase, p: Package) returns (r: Outcome<DbError>)
      requires Valid()
      requires env.strict == strictFeed && env.packagesPath == packagesPath
      modifies this`packages
      ensures Valid()
      ensures r.Pass? ==> Step(env, ph, old(packages), p) == Ok(packages)
      ensures r.Fail? ==> Step(env, ph, old(packages), p) == Err(r.error)
    {
      match ph
      case Updating =>
        r := RemovePackage(p.name);
        if r.Pass? {
          var h := HandlePackage(p, env.feed, packagesPath, env.updateChecksums, env.archiveChecksum, env.nativePath);
          if h.Err? {
            r := Fail(h.error);
          } else {
            r := AddPackage(h.value, env.conflicts(h.value));
          }
        }
      case Removing =>
        r := RemovePackage(p.name);
      case Adding =>
        var h := HandlePackage(p, env.feed, packagesPath, env.updateChecksums, env.archiveChecksum, env.nativePath);
        if h.Err? {
          r := Fail(h.error);
        } else {
          r := AddPackage(h.value, env.conflicts(h.value));
        }
      case SvnSyncing =>
        var h := HandleSvnPackage(p, packagesPath);
        r := AddPackage(h, env.conflicts(h));
    }

    /** The loop of one phase of `update` over `ps`. */
    method RunPhase(env: Env, ph: Phase, ps: seq<Package>) returns (r: Outcome<DbError>)
      requires Valid()
      requires env.strict == strictFeed && env.packagesPath == packagesPath
      modifies this`packages
      ensures Valid()
      ensures r.Pass? ==> Apply(env, ph, old(packages), ps) == Ok(packages)
      ensures r.Fail? ==> Apply(env, ph, old(packages), ps) == Err(r.error)
    {
      ghost var m0 := packages;
      var i := 0;
      while i < |ps|
        invariant 0 <= i <= |ps|
        invariant Valid()
        invariant Apply(env, ph, m0, ps[..i]) == Ok(packages)
      {
        r := RunTurn(env, ph, ps, i, m0);
        if r.Fail? {
          return;
        }
        i := i + 1;
      }
      assert ps[..i] == ps;
      r := Pass;
    }

    /** Turn `i` of a phase that has not raised yet. */
    method RunTurn(env: Env, ph: Phase, ps: seq<Package>, i: nat, ghost m0: map<string, Package>)
      returns (r: Outcome<DbError>)
      requires Valid() && i < |ps|
      requires env.strict == strictFeed && env.packagesPath == packagesPath
      requires Apply(env, ph, m0, ps[..i]) == Ok(packages)
      modifies this`packages
      ensures Valid()
      ensures r.Pass? ==> Apply(env, ph, m0, ps[..i + 1]) == Ok(packages)
      ensures r.Fail? ==> Apply(env, ph, m0, ps) == Err(r.error)
    {
      ghost var before := packages;
      r := RunStep(env, ph, ps[i]);
      ApplyNext(env, ph, m0, ps, i, before, if r.Pass? then Ok(packages) else Err(r.error));
    }

    /** The four phases of `update`, in order: update, remove, add, then
        check out or update the subversion packages. The first exception
        stops the run. */
    method RunPhases(env: Env, local: seq<Package>, remote: seq<Package>,
                     toUpdate: seq<Package>, toRemove: seq<Package>, toAdd: seq<Package>)
      returns (r: Outcome<DbError>)
      requires Valid()
      requires env.strict == strictFeed && env.packagesPath == packagesPath
      requires toUpdate == ToUpdate(local, remote, env.updateChecksums, env.same)
      requires toRemove == ToRemove(local, remote) && toAdd == ToAdd(local, remote, env.same)
      modifies this`packages
      ensures Valid()
      ensures r.Pass? ==> Reconcile(env, old(packages), local, remote) == Ok(packages)
      ensures r.Fail? ==> Reconcile(env, old(packages), local, remote) == Err(r.error)
    {
      r := RunPhase(env, Updating, toUpdate);
      if r.Fail? {
        return;
      }
      r := RunPhase(env, Removing, toRemove);
      if r.Fail? {
        return;
      }
      r := RunPhase(env, Adding, toAdd);
      if r.Fail? {
        return;
      }
      r := RunPhase(env, SvnSyncing, SvnPackages(remote));
    }

    /** `update(feed, update_checksums)`, given what the feed parser and
        the downloads report in `env`. `local` is the order in which
        `self.packages.values()` listed the installed packages. On success
        the database file is rewritten, and the feed's checksums are
        rewritten when `update_checksums` is set; on an exception neither
        happens. */
    method Update(remote: seq<Package>, env: Env) returns (r: Outcome<DbError>, local: seq<Package>, checksumsWritten: bool)
      requires Valid()
      requires env.packagesPath == packagesPath
      modifies this`packages, this`strictFeed, this`file
      ensures Valid()
      ensures strictFeed == env.strict
      ensures Lists(local, old(packages))
      ensures r.Pass? ==> Reconcile(env, old(packages), local, remote) == Ok(packages)
      ensures r.Fail? ==> Reconcile(env, old(packages), local, remote) == Err(r.error)
      ensures r.Pass? ==> Lists(file, packages)
      ensures r.Fail? ==> file == old(file)
      ensures checksumsWritten <==> r.Pass? && env.updateChecksums
    {
      strictFeed := env.strict;
      checksumsWritten := false;
      local := Values();
      var toAdd := CollectToAdd(local, remote, env.same);
      var toRemove := CollectToRemove(local, remote);
      var toUpdate := CollectToUpdate(local, remote, env.updateChecksums, env.same);
      r := RunPhases(env, local, remote, toUpdate, toRemove, toAdd);
      if r.Fail? {
        return;
      }
      checksumsWritten := env.updateChecksums;
      Save();
    }
  }
}
