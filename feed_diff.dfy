/** How `DataBase.update` reconciles the packages of a toolchain with the
    packages of a feed: the four lists it computes (packages to update, to
    remove, to add, and subversion packages), and the four phases that
    apply them, in that order, stopping at the first exception. */
module FeedDiff {
  import opened Wrappers
  import opened Packages

  /** Python's `x in xs` on packages: identity, or `QiPackage.__eq__`,
      whose code is not part of this model and is given as `same`. */
  predicate Contains(xs: seq<Package>, x: Package, same: (Package, Package) -> bool) {
    exists i :: 0 <= i < |xs| && (xs[i] == x || same(x, xs[i]))
  }

  /** `same` never equates a subversion package with an archive package. */
  ghost predicate KeepsKinds(same: (Package, Package) -> bool) {
    forall a, b :: same(a, b) ==> a.isSvn == b.isSvn
  }

  /** `same` equates a subversion package with an archive package only
      when both have the same name; implied by `KeepsKinds`, and by an
      equality that compares names. */
  ghost predicate KindsOrNames(same: (Package, Package) -> bool) {
    forall a, b :: same(a, b) ==> a.isSvn == b.isSvn || a.name == b.name
  }

  /** The subversion packages of the feed, in feed order. */
  function SvnPackages(remote: seq<Package>): (r: seq<Package>)
    ensures forall x :: x in r <==> x in remote && x.isSvn
  {
    Filter(remote, (x: Package) => x.isSvn)
  }

  /** The feed packages that are not (equal to) a subversion package. */
  function OtherPackages(remote: seq<Package>, same: (Package, Package) -> bool): (r: seq<Package>)
    ensures forall x :: x in r <==> x in remote && !Contains(SvnPackages(remote), x, same)
    ensures forall x :: x in r ==> !x.isSvn
  {
    var svn := SvnPackages(remote);
    Filter(remote, (x: Package) => !Contains(svn, x, same))
  }

  /** Under `KeepsKinds`, the other packages are exactly the archive
      packages of the feed. */
  lemma OtherPackagesAreArchives(remote: seq<Package>, same: (Package, Package) -> bool)
    requires KeepsKinds(same)
    ensures forall x :: x in OtherPackages(remote, same) <==> x in remote && !x.isSvn
  {
    var svn := SvnPackages(remote);
    forall x | x in remote && !x.isSvn ensures !Contains(svn, x, same) {
    }
  }

  /** The packages of `xs` whose name no package of `ps` has. */
  function NamedOutside(ps: seq<Package>, xs: seq<Package>): (r: seq<Package>)
    ensures forall x :: x in r <==> x in xs && x.name !in NameSet(ps)
  {
    Filter(xs, (x: Package) => x.name !in NameSet(ps))
  }

  /** `to_add`: the other feed packages whose name is not installed. */
  function ToAdd(local: seq<Package>, remote: seq<Package>, same: (Package, Package) -> bool): (r: seq<Package>)
    ensures forall x :: x in r <==>
              x in remote && !Contains(SvnPackages(remote), x, same) && x.name !in NameSet(local)
  {
    NamedOutside(local, OtherPackages(remote, same))
  }

  /** `to_remove`: the installed packages whose name the feed lacks. */
  function ToRemove(local: seq<Package>, remote: seq<Package>): (r: seq<Package>)
    ensures forall x :: x in r <==> x in local && x.name !in NameSet(remote)
  {
    NamedOutside(remote, local)
  }

  /** The first feed package with a given name. */
  function FirstNamed(remote: seq<Package>, n: string): (r: Package)
    requires n in NameSet(remote)
    ensures r in remote && r.name == n
  {
    var named := Filter(remote, (x: Package) => x.name == n);
    assert named != [] by {
      var p :| p in remote && p.name == n;
      assert p in named;
    }
    named[0]
  }

  /** An installed package is updated when the feed names it and either
      checksums are being refreshed or the feed holds no package equal to
      it. */
  predicate NeedsUpdate(l: Package, remote: seq<Package>, updateChecksums: bool,
                        same: (Package, Package) -> bool) {
    l.name in NameSet(remote) && (updateChecksums || !Contains(remote, l, same))
  }

  /** `to_update` before the subversion packages are dropped: for each
      installed package that needs it, in installed order, the first feed
      package of the same name. */
  function Candidates(local: seq<Package>, remote: seq<Package>, updateChecksums: bool,
                      same: (Package, Package) -> bool): (r: seq<Package>)
    ensures forall x :: x in r <==>
              exists l :: l in local && NeedsUpdate(l, remote, updateChecksums, same) &&
                          x == FirstNamed(remote, l.name)
    decreases |local|
  {
    if local == [] then []
    else
      var init, l := local[..|local| - 1], local[|local| - 1];
      assert local == init + [l];
      Candidates(init, remote, updateChecksums, same)
      + (if NeedsUpdate(l, remote, updateChecksums, same) then [FirstNamed(remote, l.name)] else [])
  }

  /** The archive packages of a list. */
  function Archives(xs: seq<Package>): (r: seq<Package>)
    ensures forall x :: x in r <==> x in xs && !x.isSvn
  {
    Filter(xs, (x: Package) => !x.isSvn)
  }

  /** `to_update`: the archive packages among the candidates. */
  function ToUpdate(local: seq<Package>, remote: seq<Package>, updateChecksums: bool,
                    same: (Package, Package) -> bool): (r: seq<Package>)
    ensures forall x :: x in r <==>
              !x.isSvn && exists l :: l in local && NeedsUpdate(l, remote, updateChecksums, same) &&
                                      x == FirstNamed(remote, l.name)
    ensures forall x :: x in r ==> x in remote && !x.isSvn && x.name in NameSet(local)
  {
    var c := Candidates(local, remote, updateChecksums, same);
    var r := Archives(c);
    assert forall x :: x in r ==> x.name in NameSet(local) by {
      forall x | x in r ensures x.name in NameSet(local) {
        var l :| l in local && NeedsUpdate(l, remote, updateChecksums, same) && x == FirstNamed(remote, l.name);
      }
    }
    r
  }

  /** The loop of `update` that fills `to_add`. */
  method CollectToAdd(local: seq<Package>, remote: seq<Package>, same: (Package, Package) -> bool)
    returns (toAdd: seq<Package>)
    ensures toAdd == ToAdd(local, remote, same)
  {
    var other := OtherPackages(remote, same);
    toAdd := [];
    var i := 0;
    while i < |other|
      invariant 0 <= i <= |other|
      invariant toAdd == NamedOutside(local, other[..i])
    {
      assert other[..i + 1][..i] == other[..i];
      if other[i].name !in NameSet(local) {
        toAdd := toAdd + [other[i]];
      }
      i := i + 1;
    }
    assert other[..i] == other;
  }

  /** The loop of `update` that fills `to_remove`. */
  method CollectToRemove(local: seq<Package>, remote: seq<Package>) returns (toRemove: seq<Package>)
    ensures toRemove == ToRemove(local, remote)
  {
    toRemove := [];
    var i := 0;
    while i < |local|
      invariant 0 <= i <= |local|
      invariant toRemove == NamedOutside(remote, local[..i])
    {
      assert local[..i + 1][..i] == local[..i];
      if local[i].name !in NameSet(remote) {
        toRemove := toRemove + [local[i]];
      }
      i := i + 1;
    }
    assert local[..i] == local;
  }

  /** The loop of `update` that fills `to_update`, then the filter that
      drops its subversion packages. */
  method CollectToUpdate(local: seq<Package>, remote: seq<Package>, updateChecksums: bool,
                         same: (Package, Package) -> bool) returns (toUpdate: seq<Package>)
    ensures toUpdate == ToUpdate(local, remote, updateChecksums, same)
  {
    var candidates := [];
    var i := 0;
    while i < |local|
      invariant 0 <= i <= |local|
      invariant candidates == Candidates(local[..i], remote, updateChecksums, same)
    {
      assert local[..i + 1][..i] == local[..i];
      if NeedsUpdate(local[i], remote, updateChecksums, same) {
        candidates := candidates + [FirstNamed(remote, local[i].name)];
      }
      i := i + 1;
    }
    assert local[..i] == local;
    toUpdate := Archives(candidates);
  }

  // ----- the four phases -----

  /** What `update` gets from outside the database: the feed locator, the
      checksum of the archive behind each URL, `qisys.sh.to_native_path`, whether `load_package_xml`
      raises `FeedConflict` for a package, `QiPackage.__eq__`, and the
      settings of the run. */
  datatype Env = Env(
    feed: string,
    packagesPath: string,
    updateChecksums: bool,
    strict: bool,
    archiveChecksum: string -> string,
    nativePath: string -> string,
    conflicts: Package -> bool,
    same: (Package, Package) -> bool)

  /** `remove_package(name)` on the package map. */
  function Removed(m: map<string, Package>, name: string): (r: Result<map<string, Package>, DbError>)
    ensures r.Err? <==> name !in m
    ensures r.Err? ==> r.error == NoSuchPackage(name)
    ensures r.Ok? ==> name !in r.value && forall k :: k in m && k != name ==> k in r.value && r.value[k] == m[k]
    ensures r.Ok? ==> r.value.Keys == m.Keys - {name}
  {
    if name !in m then Err(NoSuchPackage(name)) else Ok(m - {name})
  }

  /** `add_package(p)` on the package map: a conflict with the package's
      own `package.xml` is fatal only in strict mode; otherwise the package
      replaces any package of the same name. */
  function Added(m: map<string, Package>, p: Package, conflict: bool, strict: bool)
    : (r: Result<map<string, Package>, DbError>)
    ensures r.Err? <==> conflict && strict
    ensures r.Err? ==> r.error == FeedConflict(p.name)
    ensures r.Ok? ==> p.name in r.value && r.value[p.name] == p
    ensures r.Ok? ==> r.value.Keys == m.Keys + {p.name}
    ensures r.Ok? ==> forall k :: k in m && k != p.name ==> r.value[k] == m[k]
  {
    if conflict && strict then Err(FeedConflict(p.name)) else Ok(m[p.name := p])
  }

  datatype Phase = Updating | Removing | Adding | SvnSyncing

  /** `q` is `p` with at most its install path and checksum filled in. */
  predicate Installs(q: Package, p: Package) {
    q == p.(checksum := q.checksum, path := q.path)
  }

  /** One turn of a phase's loop. Updating removes the old package, handles
      the feed's and adds it; removing only removes; adding handles and
      adds; subversion packages are checked out and added. */
  function Step(env: Env, ph: Phase, m: map<string, Package>, p: Package): (r: Result<map<string, Package>, DbError>)
    ensures r.Ok? ==> r.value.Keys == if ph == Removing then m.Keys - {p.name} else m.Keys + {p.name}
    ensures r.Ok? && ph == Updating ==> p.name in m
    ensures r.Ok? && ph != Removing ==> Installs(r.value[p.name], p)
    ensures r.Err? && r.error.NoSuchPackage? ==> r.error.name == p.name && p.name !in m
    ensures r.Err? && r.error.NoSuchPackage? ==> ph == Updating || ph == Removing
  {
    match ph
    case Updating =>
      (match Removed(m, p.name)
       case Err(e) => Err(e)
       case Ok(m1) =>
         match HandlePackage(p, env.feed, env.packagesPath, env.updateChecksums, env.archiveChecksum, env.nativePath)
         case Err(e) => Err(e)
         case Ok(h) => Added(m1, h, env.conflicts(h), env.strict))
    case Removing => Removed(m, p.name)
    case Adding =>
      (match HandlePackage(p, env.feed, env.packagesPath, env.updateChecksums, env.archiveChecksum, env.nativePath)
       case Err(e) => Err(e)
       case Ok(h) => Added(m, h, env.conflicts(h), env.strict))
    case SvnSyncing =>
      var h := HandleSvnPackage(p, env.packagesPath);
      Added(m, h, env.conflicts(h), env.strict)
  }

  /** A turn touches only its own package's entry, and files what it
      adds under that package's name. */
  lemma StepFrame(env: Env, ph: Phase, m: map<string, Package>, p: Package)
    requires Step(env, ph, m, p).Ok?
    ensures forall k :: k in m && k != p.name ==> k in Step(env, ph, m, p).value && Step(env, ph, m, p).value[k] == m[k]
    ensures KeyedByName(m) ==> KeyedByName(Step(env, ph, m, p).value)
  {
  }

  lemma NameSetSnoc(xs: seq<Package>, x: Package)
    ensures NameSet(xs + [x]) == NameSet(xs) + {x.name}
  {
    assert forall p :: p in xs + [x] <==> p in xs || p == x;
  }

  lemma NameSetLast(ps: seq<Package>)
    requires ps != []
    ensures NameSet(ps) == NameSet(ps[..|ps| - 1]) + {ps[|ps| - 1].name}
  {
    assert ps == ps[..|ps| - 1] + [ps[|ps| - 1]];
    NameSetSnoc(ps[..|ps| - 1], ps[|ps| - 1]);
  }

  /** One phase: its loop over `ps`, stopping at the first exception. */
  function Apply(env: Env, ph: Phase, m: map<string, Package>, ps: seq<Package>)
    : Result<map<string, Package>, DbError>
    decreases |ps|
  {
    if ps == [] then Ok(m)
    else
      var init, p := ps[..|ps| - 1], ps[|ps| - 1];
      match Apply(env, ph, m, init)
      case Err(e) => Err(e)
      case Ok(m1) => Step(env, ph, m1, p)
  }

  /** A phase touches only the entries of its packages' names. */
  lemma {:induction false} ApplyFrame(env: Env, ph: Phase, m: map<string, Package>, ps: seq<Package>)
    requires Apply(env, ph, m, ps).Ok?
    ensures forall k :: k in m && k !in NameSet(ps) ==>
              k in Apply(env, ph, m, ps).value && Apply(env, ph, m, ps).value[k] == m[k]
    decreases |ps|
  {
    if ps != [] {
      var init, p := ps[..|ps| - 1], ps[|ps| - 1];
      assert ps == init + [p];
      NameSetSnoc(init, p);
      ApplyFrame(env, ph, m, init);
      StepFrame(env, ph, Apply(env, ph, m, init).value, p);
    }
  }

  /** A phase files what it adds under the packages' own names. */
  lemma {:induction false} ApplyKeyedByName(env: Env, ph: Phase, m: map<string, Package>, ps: seq<Package>)
    requires Apply(env, ph, m, ps).Ok? && KeyedByName(m)
    ensures KeyedByName(Apply(env, ph, m, ps).value)
    decreases |ps|
  {
    if ps != [] {
      var init, p := ps[..|ps| - 1], ps[|ps| - 1];
      assert ps == init + [p];
      ApplyKeyedByName(env, ph, m, init);
      StepFrame(env, ph, Apply(env, ph, m, init).value, p);
    }
  }

  /** Removing takes the packages' names out of the map, the other phases
      put them in. */
  lemma {:induction false} ApplyKeys(env: Env, ph: Phase, m: map<string, Package>, ps: seq<Package>)
    requires Apply(env, ph, m, ps).Ok?
    ensures Apply(env, ph, m, ps).value.Keys ==
              if ph == Removing then m.Keys - NameSet(ps) else m.Keys + NameSet(ps)
    decreases |ps|
  {
    if ps != [] {
      NameSetLast(ps);
      ApplyKeys(env, ph, m, ps[..|ps| - 1]);
    }
  }

  /** One more turn of a phase that has not raised yet. */
  lemma ApplySnoc(env: Env, ph: Phase, m: map<string, Package>, ps: seq<Package>, p: Package)
    requires Apply(env, ph, m, ps).Ok?
    ensures Apply(env, ph, m, ps + [p]) == Step(env, ph, Apply(env, ph, m, ps).value, p)
  {
    assert (ps + [p])[..|ps|] == ps;
  }

  /** The turn `i` of a phase that has not raised yet, as its loop runs it. */
  lemma ApplyNext(env: Env, ph: Phase, m: map<string, Package>, ps: seq<Package>, i: nat,
                  before: map<string, Package>, after: Result<map<string, Package>, DbError>)
    requires i < |ps|
    requires Apply(env, ph, m, ps[..i]) == Ok(before)
    requires Step(env, ph, before, ps[i]) == after
    ensures after.Ok? ==> Apply(env, ph, m, ps[..i + 1]) == after
    ensures after.Err? ==> Apply(env, ph, m, ps) == after
  {
    assert ps[..i + 1] == ps[..i] + [ps[i]];
    ApplySnoc(env, ph, m, ps[..i], ps[i]);
    if after.Err? {
      ApplyStopsAtError(env, ph, m, ps, i + 1);
    }
  }

  /** An exception in the first `j` turns of a phase is the phase's. */
  lemma {:induction false} ApplyStopsAtError(env: Env, ph: Phase, m: map<string, Package>, ps: seq<Package>, j: nat)
    requires j <= |ps| && Apply(env, ph, m, ps[..j]).Err?
    ensures Apply(env, ph, m, ps) == Apply(env, ph, m, ps[..j])
    decreases |ps| - j
  {
    if j < |ps| {
      assert ps[..j + 1][..j] == ps[..j];
      ApplyStopsAtError(env, ph, m, ps, j + 1);
    } else {
      assert ps[..j] == ps;
    }
  }

  /** `update` after the diff: the phases in order, from the installed
      map `m` listed as `local`. */
  function Reconcile(env: Env, m: map<string, Package>, local: seq<Package>, remote: seq<Package>)
    : (r: Result<map<string, Package>, DbError>)
  {
    match Apply(env, Updating, m, ToUpdate(local, remote, env.updateChecksums, env.same))
    case Err(e) => Err(e)
    case Ok(m1) =>
      match Apply(env, Removing, m1, ToRemove(local, remote))
      case Err(e) => Err(e)
      case Ok(m2) =>
        match Apply(env, Adding, m2, ToAdd(local, remote, env.same))
        case Err(e) => Err(e)
        case Ok(m3) => Apply(env, SvnSyncing, m3, SvnPackages(remote))
  }

  lemma ToUpdateNames(local: seq<Package>, remote: seq<Package>, updateChecksums: bool,
                      same: (Package, Package) -> bool)
    ensures NameSet(ToUpdate(local, remote, updateChecksums, same)) <= NameSet(local)
  {
  }

  lemma ToRemoveNames(local: seq<Package>, remote: seq<Package>)
    ensures NameSet(ToRemove(local, remote)) == NameSet(local) - NameSet(remote)
  {
    forall n | n in NameSet(local) - NameSet(remote) ensures n in NameSet(ToRemove(local, remote)) {
      var x :| x in local && x.name == n;
      assert x in ToRemove(local, remote);
    }
  }

  /** Under `KeepsKinds`, the names `to_add` installs are the feed's
      archive names that are not installed yet. */
  lemma ToAddNames(local: seq<Package>, remote: seq<Package>, same: (Package, Package) -> bool)
    requires KeepsKinds(same)
    ensures NameSet(ToAdd(local, remote, same)) == NameSet(Archives(remote)) - NameSet(local)
  {
    OtherPackagesAreArchives(remote, same);
    forall n | n in NameSet(Archives(remote)) - NameSet(local) ensures n in NameSet(ToAdd(local, remote, same)) {
      var x :| x in Archives(remote) && x.name == n;
      assert x in ToAdd(local, remote, same);
    }
  }

  /** Under `KindsOrNames`, `to_add` installs only archive names that
      are not installed yet, and every such name that is not also the name
      of a subversion package of the feed. */
  lemma ToAddNamesBetween(local: seq<Package>, remote: seq<Package>, same: (Package, Package) -> bool)
    requires KindsOrNames(same)
    ensures NameSet(Archives(remote)) - NameSet(local) - NameSet(SvnPackages(remote))
              <= NameSet(ToAdd(local, remote, same))
    ensures NameSet(ToAdd(local, remote, same)) <= NameSet(Archives(remote)) - NameSet(local)
  {
    var svn := SvnPackages(remote);
    forall n | n in NameSet(Archives(remote)) - NameSet(local) - NameSet(svn)
      ensures n in NameSet(ToAdd(local, remote, same))
    {
      var x :| x in Archives(remote) && x.name == n;
      assert x in ToAdd(local, remote, same);
    }
  }

  lemma FeedNames(remote: seq<Package>)
    ensures NameSet(remote) == NameSet(Archives(remote)) + NameSet(SvnPackages(remote))
  {
    forall n | n in NameSet(remote) ensures n in NameSet(Archives(remote)) + NameSet(SvnPackages(remote)) {
      var x :| x in remote && x.name == n;
      if x.isSvn {
        assert x in SvnPackages(remote);
      } else {
        assert x in Archives(remote);
      }
    }
  }

  /** After the updating and removing phases, exactly the installed names
      that the feed still lists remain. */
  lemma KeptNames(env: Env, m: map<string, Package>, local: seq<Package>, remote: seq<Package>,
                  m2: map<string, Package>)
    requires Lists(local, m)
    requires Apply(env, Updating, m, ToUpdate(local, remote, env.updateChecksums, env.same)).Ok?
    requires Apply(env, Removing, Apply(env, Updating, m, ToUpdate(local, remote, env.updateChecksums, env.same)).value,
                   ToRemove(local, remote)) == Ok(m2)
    ensures m2.Keys == NameSet(local) - (NameSet(local) - NameSet(remote))
  {
    var toUpdate := ToUpdate(local, remote, env.updateChecksums, env.same);
    ApplyKeys(env, Updating, m, toUpdate);
    ToUpdateNames(local, remote, env.updateChecksums, env.same);
    ApplyKeys(env, Removing, Apply(env, Updating, m, toUpdate).value, ToRemove(local, remote));
    ToRemoveNames(local, remote);
  }

  /** A successful update leaves exactly the feed's package names
      installed, each under its own name. */
  lemma ReconciledNames(env: Env, m: map<string, Package>, local: seq<Package>, remote: seq<Package>)
    requires KeyedByName(m) && Lists(local, m)
    requires KindsOrNames(env.same)
    requires Reconcile(env, m, local, remote).Ok?
    ensures Reconcile(env, m, local, remote).value.Keys == NameSet(remote)
  {
    var r1 := Apply(env, Updating, m, ToUpdate(local, remote, env.updateChecksums, env.same));
    var r2 := Apply(env, Removing, r1.value, ToRemove(local, remote));
    var toAdd := ToAdd(local, remote, env.same);
    var r3 := Apply(env, Adding, r2.value, toAdd);
    var svn := SvnPackages(remote);
    KeptNames(env, m, local, remote, r2.value);
    ApplyKeys(env, Adding, r2.value, toAdd);
    ToAddNamesBetween(local, remote, env.same);
    ApplyKeys(env, SvnSyncing, r3.value, svn);
    FeedNames(remote);
    PhaseNames(NameSet(local), NameSet(Archives(remote)), NameSet(svn), NameSet(toAdd),
               r2.value.Keys, r3.value.Keys, Reconcile(env, m, local, remote).value.Keys);
  }

  /** The name bookkeeping of the four phases: with `l` installed, `a`
      the feed's archive names, `s` its subversion names and `t` the names
      added, the phases end with exactly `a + s`. */
  lemma PhaseNames(l: set<string>, a: set<string>, s: set<string>, t: set<string>,
                   k2: set<string>, k3: set<string>, k4: set<string>)
    requires a - l - s <= t <= a - l
    requires k2 == l - (l - (a + s))
    requires k3 == k2 + t
    requires k4 == k3 + s
    ensures k4 == a + s
  {
  }

  /** Every package an update installs is filed under its own name. */
  lemma ReconciledKeyedByName(env: Env, m: map<string, Package>, local: seq<Package>, remote: seq<Package>)
    requires KeyedByName(m)
    requires Reconcile(env, m, local, remote).Ok?
    ensures KeyedByName(Reconcile(env, m, local, remote).value)
  {
    var r1 := Apply(env, Updating, m, ToUpdate(local, remote, env.updateChecksums, env.same));
    ApplyKeyedByName(env, Updating, m, ToUpdate(local, remote, env.updateChecksums, env.same));
    var r2 := Apply(env, Removing, r1.value, ToRemove(local, remote));
    ApplyKeyedByName(env, Removing, r1.value, ToRemove(local, remote));
    var r3 := Apply(env, Adding, r2.value, ToAdd(local, remote, env.same));
    ApplyKeyedByName(env, Adding, r2.value, ToAdd(local, remote, env.same));
    ApplyKeyedByName(env, SvnSyncing, r3.value, SvnPackages(remote));
  }

  /** An installed package that needs no update is not in `to_update`. */
  lemma NotUpdatedName(local: seq<Package>, m: map<string, Package>, remote: seq<Package>,
                       updateChecksums: bool, same: (Package, Package) -> bool, k: string)
    requires Lists(local, m) && k in m
    requires !NeedsUpdate(m[k], remote, updateChecksums, same)
    ensures k !in NameSet(ToUpdate(local, remote, updateChecksums, same))
  {
    forall x | x in ToUpdate(local, remote, updateChecksums, same) ensures x.name != k {
      var l :| l in local && NeedsUpdate(l, remote, updateChecksums, same) && x == FirstNamed(remote, l.name);
      assert m[l.name] == l;
    }
  }

  /** Packages of the same name that the phases never touch keep their
      installed record: a package that is in the feed, that nothing asks
      to update and that is not a subversion package of the feed. */
  lemma ReconcileKeepsUntouched(env: Env, m: map<string, Package>, local: seq<Package>, remote: seq<Package>, k: string)
    requires KeyedByName(m) && Lists(local, m)
    requires Reconcile(env, m, local, remote).Ok?
    requires k in m && k in NameSet(remote)
    requires !NeedsUpdate(m[k], remote, env.updateChecksums, env.same)
    requires k !in NameSet(SvnPackages(remote))
    ensures k in Reconcile(env, m, local, remote).value
    ensures Reconcile(env, m, local, remote).value[k] == m[k]
  {
    var toUpdate := ToUpdate(local, remote, env.updateChecksums, env.same);
    NotUpdatedName(local, m, remote, env.updateChecksums, env.same, k);
    var toRemove := ToRemove(local, remote);
    var toAdd := ToAdd(local, remote, env.same);
    assert k !in NameSet(toRemove);
    assert k !in NameSet(toAdd);
    var r1 := Apply(env, Updating, m, toUpdate);
    ApplyFrame(env, Updating, m, toUpdate);
    var r2 := Apply(env, Removing, r1.value, toRemove);
    ApplyFrame(env, Removing, r1.value, toRemove);
    var r3 := Apply(env, Adding, r2.value, toAdd);
    ApplyFrame(env, Adding, r2.value, toAdd);
    ApplyFrame(env, SvnSyncing, r3.value, SvnPackages(remote));
  }

  // ----- remove_package never raises during an update -----

  lemma {:induction false} FilterKeepsUniqueNames(xs: seq<Package>, f: Package -> bool)
    requires UniqueNames(xs)
    ensures UniqueNames(Filter(xs, f))
    decreases |xs|
  {
    if xs != [] {
      var init, x := xs[..|xs| - 1], xs[|xs| - 1];
      FilterKeepsUniqueNames(init, f);
      var fi := Filter(init, f);
      forall i | 0 <= i < |fi| ensures fi[i].name != x.name {
        assert fi[i] in init;
        var j :| 0 <= j < |init| && init[j] == fi[i];
        assert xs[j] == init[j];
      }
    }
  }

  lemma {:induction false} CandidatesUniqueNames(local: seq<Package>, remote: seq<Package>, updateChecksums: bool,
                                                 same: (Package, Package) -> bool)
    requires UniqueNames(local)
    ensures UniqueNames(Candidates(local, remote, updateChecksums, same))
    decreases |local|
  {
    if local != [] {
      var init, l := local[..|local| - 1], local[|local| - 1];
      assert UniqueNames(init);
      CandidatesUniqueNames(init, remote, updateChecksums, same);
      var ci := Candidates(init, remote, updateChecksums, same);
      forall x | x in ci ensures x.name != l.name {
        var l' :| l' in init && NeedsUpdate(l', remote, updateChecksums, same) && x == FirstNamed(remote, l'.name);
        var j :| 0 <= j < |init| && init[j] == l';
        assert local[j] == l';
      }
      if NeedsUpdate(l, remote, updateChecksums, same) {
        UniqueNamesSnoc(ci, FirstNamed(remote, l.name));
      }
    }
  }

  lemma UniqueNamesSnoc(xs: seq<Package>, p: Package)
    requires UniqueNames(xs)
    requires forall x :: x in xs ==> x.name != p.name
    ensures UniqueNames(xs + [p])
  {
    var ys := xs + [p];
    forall i, j | 0 <= i < j < |ys| ensures ys[i].name != ys[j].name {
      if j == |xs| {
        assert ys[i] in xs;
      }
    }
  }

  /** Removing (or updating) each name of a duplicate-free list of
      installed names, in turn, never finds one missing. */
  lemma {:induction false} ApplyFindsEveryName(env: Env, ph: Phase, m: map<string, Package>, ps: seq<Package>)
    requires ph == Updating || ph == Removing
    requires UniqueNames(ps) && NameSet(ps) <= m.Keys
    ensures Apply(env, ph, m, ps).Err? ==> !Apply(env, ph, m, ps).error.NoSuchPackage?
    decreases |ps|
  {
    if ps != [] {
      var init, p := ps[..|ps| - 1], ps[|ps| - 1];
      assert ps == init + [p];
      NameSetSnoc(init, p);
      assert UniqueNames(init);
      ApplyFindsEveryName(env, ph, m, init);
      var r1 := Apply(env, ph, m, init);
      if r1.Ok? {
        ApplyKeys(env, ph, m, init);
        assert p.name !in NameSet(init);
      }
    }
  }

  /** Every phase but updating and removing raises only `NoSource`,
      `BadChecksum` or `FeedConflict`. */
  lemma {:induction false} ApplyAddsWithoutLookup(env: Env, ph: Phase, m: map<string, Package>, ps: seq<Package>)
    requires ph == Adding || ph == SvnSyncing
    ensures Apply(env, ph, m, ps).Err? ==> !Apply(env, ph, m, ps).error.NoSuchPackage?
    decreases |ps|
  {
    if ps != [] {
      ApplyAddsWithoutLookup(env, ph, m, ps[..|ps| - 1]);
    }
  }

  /** `remove_package` never raises "No such package" during `update`:
      every name it updates or removes is installed at that point. */
  lemma ReconcileNeverMissesAPackage(env: Env, m: map<string, Package>, local: seq<Package>, remote: seq<Package>)
    requires Lists(local, m)
    ensures Reconcile(env, m, local, remote).Err? ==> !Reconcile(env, m, local, remote).error.NoSuchPackage?
  {
    var toUpdate := ToUpdate(local, remote, env.updateChecksums, env.same);
    var toRemove := ToRemove(local, remote);
    CandidatesUniqueNames(local, remote, env.updateChecksums, env.same);
    FilterKeepsUniqueNames(Candidates(local, remote, env.updateChecksums, env.same), (x: Package) => !x.isSvn);
    ApplyFindsEveryName(env, Updating, m, toUpdate);
    var r1 := Apply(env, Updating, m, toUpdate);
    if r1.Ok? {
      ApplyKeys(env, Updating, m, toUpdate);
      ToUpdateNames(local, remote, env.updateChecksums, env.same);
      FilterKeepsUniqueNames(local, (x: Package) => x.name !in NameSet(remote));
      ApplyFindsEveryName(env, Removing, r1.value, toRemove);
      var r2 := Apply(env, Removing, r1.value, toRemove);
      if r2.Ok? {
        ApplyAddsWithoutLookup(env, Adding, r2.value, ToAdd(local, remote, env.same));
        var r3 := Apply(env, Adding, r2.value, ToAdd(local, remote, env.same));
        if r3.Ok? {
          ApplyAddsWithoutLookup(env, SvnSyncing, r3.value, SvnPackages(remote));
        }
      }
    }
  }
}
