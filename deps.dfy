/** `qibuild.deps`: the queries of `DepsSolver` over a build worktree
    and its toolchain, and the `<depends>` records that carry a project's
    three dependency sets in XML. */
module Deps {
  import opened Wrappers
  import opened Text
  import opened DepKinds
  import opened QiXml
  import opened Packages
  import opened Database

  /** A build project: its name, its dependency sets and its
      `sdk_directory`. */
  datatype Project = Project(name: string, deps: DepSets, sdkDirectory: string)

  /** What the solver reads from a build worktree: its build projects, and
      the packages of its toolchain when it has one. */
  datatype Worktree = Worktree(buildProjects: seq<Project>, toolchain: Option<map<string, Package>>)

  /** `[x.name for x in projects]`. */
  function ProjectNames(ps: seq<Project>): (r: seq<string>)
    ensures |r| == |ps| && forall i :: 0 <= i < |ps| ==> r[i] == ps[i].name
  {
    seq(|ps|, i requires 0 <= i < |ps| => ps[i].name)
  }

  // ----- _get_sorted_names, forward -----

  /** `to_sort` of the forward mode: one entry per build project name; a
      later project of the same name overwrites an earlier one. */
  function EdgeMap(bps: seq<Project>, kinds: set<Kind>): (r: map<string, set<string>>)
    ensures r.Keys == set p | p in bps :: p.name
    decreases |bps|
  {
    if bps == [] then map[]
    else
      var init, p := bps[..|bps| - 1], bps[|bps| - 1];
      assert bps == init + [p];
      EdgeMap(init, kinds)[p.name := Selected(p.deps, kinds)]
  }

  /** The entry of a build project that no later project shadows is the
      union of exactly its selected dependency sets. */
  lemma {:induction false} EdgeMapEntry(bps: seq<Project>, kinds: set<Kind>, i: nat)
    requires i < |bps|
    requires forall j :: i < j < |bps| ==> bps[j].name != bps[i].name
    ensures bps[i].name in EdgeMap(bps, kinds)
    ensures forall x :: x in EdgeMap(bps, kinds)[bps[i].name] <==>
              exists k :: k in kinds && x in Of(bps[i].deps, k)
    decreases |bps|
  {
    var init := bps[..|bps| - 1];
    if i < |bps| - 1 {
      EdgeMapEntry(init, kinds, i);
    }
  }

  // ----- _get_sorted_names, reverse -----

  /** The three checks of the reverse mode on one build project: some
      requested project's name is in one of its selected sets. */
  predicate HitsAny(p: Project, roots: seq<Project>, kinds: set<Kind>) {
    || (Build in kinds && exists x :: x in roots && x.name in p.deps.build)
    || (Runtime in kinds && exists x :: x in roots && x.name in p.deps.run)
    || (Test in kinds && exists x :: x in roots && x.name in p.deps.test)
  }

  /** `p` directly depends, with one of the selected kinds, on one of the
      requested projects. */
  predicate DependsDirectly(p: Project, roots: seq<Project>, kinds: set<Kind>) {
    exists x, k :: x in roots && k in kinds && x.name in Of(p.deps, k)
  }

  lemma HitsAnyIsDirect(p: Project, roots: seq<Project>, kinds: set<Kind>)
    ensures HitsAny(p, roots, kinds) <==> DependsDirectly(p, roots, kinds)
  {
    if DependsDirectly(p, roots, kinds) {
      var x, k :| x in roots && k in kinds && x.name in Of(p.deps, k);
      match k
      case Build =>
      case Runtime =>
      case Test =>
    }
    if HitsAny(p, roots, kinds) {
      if Build in kinds && exists x :: x in roots && x.name in p.deps.build {
        var x :| x in roots && x.name in p.deps.build;
        assert x.name in Of(p.deps, Build);
      } else if Runtime in kinds && exists x :: x in roots && x.name in p.deps.run {
        var x :| x in roots && x.name in p.deps.run;
        assert x.name in Of(p.deps, Runtime);
      } else {
        var x :| x in roots && x.name in p.deps.test;
        assert x.name in Of(p.deps, Test);
      }
    }
  }

  /** `sorted(list(reverse_deps))`: the names of the build projects that
      directly depend on a requested project, ascending and each once.
      Dependencies of dependencies are not followed. */
  function ReverseDeps(bps: seq<Project>, roots: seq<Project>, kinds: set<Kind>): (r: seq<string>)
    ensures StrictlyAscending(r)
    ensures forall n :: n in r <==> exists p :: p in bps && p.name == n && DependsDirectly(p, roots, kinds)
    decreases |bps|
  {
    if bps == [] then []
    else
      var init, p := bps[..|bps| - 1], bps[|bps| - 1];
      assert bps == init + [p];
      var acc := ReverseDeps(init, roots, kinds);
      HitsAnyIsDirect(p, roots, kinds);
      if HitsAny(p, roots, kinds) then InsertSorted(acc, p.name) else acc
  }

  /** `_get_sorted_names(projects, dep_types, reverse)`; the forward mode
      sorts the edge map of the build projects from the requested names,
      in their given order. */
  function SortedNames(wt: Worktree, roots: seq<Project>, kinds: set<Kind>, reverse: bool, sort: Sorter)
    : (r: seq<string>)
    ensures reverse ==> StrictlyAscending(r)
    ensures reverse ==> forall n :: n in r <==>
              exists p :: p in wt.buildProjects && p.name == n && DependsDirectly(p, roots, kinds)
    ensures !reverse ==> r == sort(EdgeMap(wt.buildProjects, kinds), ProjectNames(roots))
  {
    if reverse then ReverseDeps(wt.buildProjects, roots, kinds)
    else sort(EdgeMap(wt.buildProjects, kinds), ProjectNames(roots))
  }

  // ----- get_dep_projects -----

  /** `build_worktree.get_build_project(name, raises=False)`: the first
      build project of that name, if any. */
  function FindProject(bps: seq<Project>, name: string): (r: Option<Project>)
    ensures r.Some? <==> exists p :: p in bps && p.name == name
    ensures r.Some? ==> r.value in bps && r.value.name == name
  {
    if bps == [] then None
    else if bps[0].name == name then Some(bps[0])
    else FindProject(bps[1..], name)
  }

  /** The names of the list that some build project has, in list order. */
  function ResolvableNames(bps: seq<Project>, names: seq<string>): (r: seq<string>)
    ensures forall n :: n in r <==> n in names && exists p :: p in bps && p.name == n
    decreases |names|
  {
    if names == [] then []
    else
      var init, n := names[..|names| - 1], names[|names| - 1];
      assert names == init + [n];
      ResolvableNames(bps, init) + (if FindProject(bps, n).Some? then [n] else [])
  }

  /** The loop of `get_dep_projects`: the build project of every name that
      has one, in the order of the names; other names are skipped. */
  function DepProjects(bps: seq<Project>, names: seq<string>): (r: seq<Project>)
    ensures |r| <= |names|
    ensures forall p :: p in r <==> exists n :: n in names && FindProject(bps, n) == Some(p)
    decreases |names|
  {
    if names == [] then []
    else
      var init, n := names[..|names| - 1], names[|names| - 1];
      assert names == init + [n];
      var found := FindProject(bps, n);
      var tail := if found.Some? then [found.value] else [];
      assert forall p :: p in tail <==> found == Some(p);
      assert forall m :: m in names <==> m in init || m == n;
      DepProjects(bps, init) + tail
  }

  /** The projects found are those of the resolvable names, in the same
      order. */
  lemma {:induction false} DepProjectsFollowNames(bps: seq<Project>, names: seq<string>)
    ensures ProjectNames(DepProjects(bps, names)) == ResolvableNames(bps, names)
    decreases |names|
  {
    if names != [] {
      var init, n := names[..|names| - 1], names[|names| - 1];
      DepProjectsFollowNames(bps, init);
      var found := FindProject(bps, n);
      var tail := if found.Some? then [found.value] else [];
      assert DepProjects(bps, names) == DepProjects(bps, init) + tail;
      assert ProjectNames(DepProjects(bps, init) + tail) == ProjectNames(DepProjects(bps, init)) + ProjectNames(tail);
    }
  }

  /** `get_dep_projects(projects, dep_types, reverse)`: the build projects
      of the sorted names that resolve, in sorted-name order. */
  function GetDepProjects(wt: Worktree, roots: seq<Project>, kinds: set<Kind>, reverse: bool, sort: Sorter)
    : (r: seq<Project>)
    ensures ProjectNames(r) == ResolvableNames(wt.buildProjects, SortedNames(wt, roots, kinds, reverse, sort))
    ensures forall p :: p in r ==> p in wt.buildProjects
  {
    var names := SortedNames(wt, roots, kinds, reverse, sort);
    DepProjectsFollowNames(wt.buildProjects, names);
    DepProjects(wt.buildProjects, names)
  }

  // ----- get_dep_packages -----

  /** `[p for p in res if p.name not in names]`. */
  function Unshadowed(ps: seq<Package>, names: seq<string>): (r: seq<Package>)
    ensures forall p :: p in r <==> p in ps && p.name !in names
    decreases |ps|
  {
    if ps == [] then []
    else
      var init, p := ps[..|ps| - 1], ps[|ps| - 1];
      assert ps == init + [p];
      Unshadowed(init, names) + (if p.name !in names then [p] else [])
  }

  /** Keeping the packages of a list that no name shadows keeps their
      order. */
  lemma {:induction false} UnshadowedKeepsOrder(ps: seq<Package>, names: seq<string>, i: nat, j: nat)
    requires i < j < |ps| && ps[i].name !in names && ps[j].name !in names
    ensures exists a, b :: 0 <= a < b < |Unshadowed(ps, names)| &&
              Unshadowed(ps, names)[a] == ps[i] && Unshadowed(ps, names)[b] == ps[j]
    decreases |ps|
  {
    var init := ps[..|ps| - 1];
    var ui, u := Unshadowed(init, names), Unshadowed(ps, names);
    assert u == ui + (if ps[|ps| - 1].name !in names then [ps[|ps| - 1]] else []);
    if j < |ps| - 1 {
      UnshadowedKeepsOrder(init, names, i, j);
      var a, b :| 0 <= a < b < |ui| && ui[a] == init[i] && ui[b] == init[j];
      assert u[a] == ps[i] && u[b] == ps[j];
    } else {
      assert init[i] in ui;
      var a :| 0 <= a < |ui| && ui[a] == init[i];
      assert u[a] == ps[i] && u[|ui|] == ps[j];
    }
  }

  /** What the toolchain's `solve_deps` returns for the toolchain packages
      of the forward sorted names. */
  function ToolchainDeps(wt: Worktree, tc: map<string, Package>, roots: seq<Project>, kinds: set<Kind>,
                         sort: Sorter): seq<Package>
  {
    var depPackages := Resolved(tc, SortedNames(wt, roots, kinds, false, sort));
    Resolved(tc, sort(DepGraph(tc, kinds), Names(depPackages)))
  }

  /** `get_dep_packages(projects, dep_types)`: nothing without a
      toolchain; otherwise the toolchain packages of the sorted names are
      handed to the toolchain's `solve_deps`, and what it returns is kept
      unless a build project has the same name. The toolchain, like every
      package database, files each package under its own name. */
  function GetDepPackages(wt: Worktree, roots: seq<Project>, kinds: set<Kind>, sort: Sorter)
    : (r: seq<Package>)
    requires wt.toolchain.Some? ==> KeyedByName(wt.toolchain.value)
    ensures wt.toolchain.None? ==> r == []
    ensures forall p :: p in r ==> p.name !in ProjectNames(wt.buildProjects)
    ensures wt.toolchain.Some? ==>
              var tc := wt.toolchain.value;
              var seeds := Resolved(tc, SortedNames(wt, roots, kinds, false, sort));
              forall p :: p in r <==>
                p.name !in ProjectNames(wt.buildProjects) &&
                p in Resolved(tc, sort(DepGraph(tc, kinds), Names(seeds)))
  {
    match wt.toolchain
    case None => []
    case Some(tc) => Unshadowed(ToolchainDeps(wt, tc, roots, kinds, sort), ProjectNames(wt.buildProjects))
  }

  /** The packages `get_dep_packages` keeps appear in the order
      `solve_deps` gave them. */
  lemma GetDepPackagesKeepsOrder(wt: Worktree, roots: seq<Project>, kinds: set<Kind>, sort: Sorter, i: nat, j: nat)
    requires wt.toolchain.Some? && KeyedByName(wt.toolchain.value)
    requires var res := ToolchainDeps(wt, wt.toolchain.value, roots, kinds, sort);
             i < j < |res| &&
             res[i].name !in ProjectNames(wt.buildProjects) && res[j].name !in ProjectNames(wt.buildProjects)
    ensures var res, r := ToolchainDeps(wt, wt.toolchain.value, roots, kinds, sort), GetDepPackages(wt, roots, kinds, sort);
            exists a, b :: 0 <= a < b < |r| && r[a] == res[i] && r[b] == res[j]
  {
    var res, names := ToolchainDeps(wt, wt.toolchain.value, roots, kinds, sort), ProjectNames(wt.buildProjects);
    var r := GetDepPackages(wt, roots, kinds, sort);
    assert r == Unshadowed(res, names);
    UnshadowedKeepsOrder(res, names, i, j);
    var a, b :| 0 <= a < b < |r| && r[a] == res[i] && r[b] == res[j];
  }

  // ----- get_sdk_dirs -----

  /** The loop of `get_sdk_dirs`: the `sdk_directory` of every project of
      the list not named `name`, in list order. */
  function SdkDirsExcept(ps: seq<Project>, name: string): (r: seq<string>)
    ensures |r| <= |ps|
    ensures forall d :: d in r <==> exists q :: q in ps && q.name != name && q.sdkDirectory == d
    decreases |ps|
  {
    if ps == [] then []
    else
      var init, q := ps[..|ps| - 1], ps[|ps| - 1];
      assert ps == init + [q];
      SdkDirsExcept(init, name) + (if q.name != name then [q.sdkDirectory] else [])
  }

  /** The directories keep the order of their projects. */
  lemma {:induction false} SdkDirsExceptKeepsOrder(ps: seq<Project>, name: string, i: nat, j: nat)
    requires i < j < |ps| && ps[i].name != name && ps[j].name != name
    ensures exists a, b :: 0 <= a < b < |SdkDirsExcept(ps, name)| &&
              SdkDirsExcept(ps, name)[a] == ps[i].sdkDirectory && SdkDirsExcept(ps, name)[b] == ps[j].sdkDirectory
    decreases |ps|
  {
    var init := ps[..|ps| - 1];
    var di := SdkDirsExcept(init, name);
    if j < |ps| - 1 {
      SdkDirsExceptKeepsOrder(init, name, i, j);
      var a, b :| 0 <= a < b < |di| && di[a] == init[i].sdkDirectory && di[b] == init[j].sdkDirectory;
      assert SdkDirsExcept(ps, name)[a] == di[a] && SdkDirsExcept(ps, name)[b] == di[b];
    } else {
      SdkDirsExceptPosition(init, name, i);
      var a :| 0 <= a < |di| && di[a] == init[i].sdkDirectory;
      assert SdkDirsExcept(ps, name)[a] == di[a];
      assert SdkDirsExcept(ps, name)[|di|] == ps[j].sdkDirectory;
    }
  }

  lemma SdkDirsExceptPosition(ps: seq<Project>, name: string, i: nat)
    requires i < |ps| && ps[i].name != name
    ensures exists a :: 0 <= a < |SdkDirsExcept(ps, name)| && SdkDirsExcept(ps, name)[a] == ps[i].sdkDirectory
  {
    assert ps[i] in ps;
    assert ps[i].sdkDirectory in SdkDirsExcept(ps, name);
  }

  /** `get_sdk_dirs(project, dep_types)`: the `sdk_directory` of every
      dependency project of `project` except `project`'s own name, in
      the order of `get_dep_projects`. */
  function GetSdkDirs(wt: Worktree, project: Project, kinds: set<Kind>, sort: Sorter): (r: seq<string>)
    ensures |r| <= |GetDepProjects(wt, [project], kinds, false, sort)|
    ensures forall d :: d in r <==>
              exists q :: q in GetDepProjects(wt, [project], kinds, false, sort) &&
                          q.name != project.name && q.sdkDirectory == d
  {
    SdkDirsExcept(GetDepProjects(wt, [project], kinds, false, sort), project.name)
  }

  /** The directories come in the order of `get_dep_projects`. */
  lemma GetSdkDirsKeepsOrder(wt: Worktree, project: Project, kinds: set<Kind>, sort: Sorter, i: nat, j: nat)
    requires var ps := GetDepProjects(wt, [project], kinds, false, sort);
             i < j < |ps| && ps[i].name != project.name && ps[j].name != project.name
    ensures var ps, r := GetDepProjects(wt, [project], kinds, false, sort), GetSdkDirs(wt, project, kinds, sort);
            exists a, b :: 0 <= a < b < |r| && r[a] == ps[i].sdkDirectory && r[b] == ps[j].sdkDirectory
  {
    var ps := GetDepProjects(wt, [project], kinds, false, sort);
    var r := GetSdkDirs(wt, project, kinds, sort);
    assert r == SdkDirsExcept(ps, project.name);
    SdkDirsExceptKeepsOrder(ps, project.name, i, j);
    var a, b :| 0 <= a < b < |r| && r[a] == ps[i].sdkDirectory && r[b] == ps[j].sdkDirectory;
  }

  // ----- read_deps_from_xml -----

  /** The attribute of a `<depends>` record that switches a kind on. */
  function FlagName(k: Kind): string {
    match k
    case Build => "buildtime"
    case Runtime => "runtime"
    case Test => "testtime"
  }

  /** Every flag of the record is absent or a valid boolean. */
  predicate FlagsValid(rec: Element) {
    forall k :: ParseBoolAttr(rec, FlagName(k), false).Ok?
  }

  /** The record switches `k` on; an absent flag counts as false. */
  predicate Flagged(rec: Element, k: Kind) {
    ParseBoolAttr(rec, FlagName(k), false) == Ok(true)
  }

  /** The set of the words of a list. */
  function Words(ws: seq<string>): set<string> {
    set w | w in ws
  }

  /** One turn of the outer loop of `read_deps_from_xml`: the three flags
      are parsed first, then the names are added to the set of every kind
      switched on. */
  function AddRecord(d: DepSets, rec: Element): Result<DepSets, XmlError> {
    var b := ParseBoolAttr(rec, "buildtime", false);
    var rt := ParseBoolAttr(rec, "runtime", false);
    var t := ParseBoolAttr(rec, "testtime", false);
    if b.Err? then Err(b.error)
    else if rt.Err? then Err(rt.error)
    else if t.Err? then Err(t.error)
    else
      var names := Words(ParseListAttr(rec, "names"));
      Ok(DepSets(
        if b.value then d.build + names else d.build,
        if rt.value then d.run + names else d.run,
        if t.value then d.test + names else d.test))
  }

  /** A record raises exactly when one of its flags is not a boolean, and
      otherwise adds its names to the set of every kind it switches on and
      to no other. */
  lemma AddRecordSpec(d: DepSets, rec: Element)
    ensures AddRecord(d, rec).Err? <==> !FlagsValid(rec)
    ensures AddRecord(d, rec).Err? ==>
              exists k :: AddRecord(d, rec).error == BadBool(FlagName(k)) && ParseBoolAttr(rec, FlagName(k), false).Err?
    ensures AddRecord(d, rec).Ok? ==>
              forall k :: Of(AddRecord(d, rec).value, k) ==
                          Of(d, k) + (if Flagged(rec, k) then Words(ParseListAttr(rec, "names")) else {})
  {
    assert FlagName(Build) == "buildtime" && FlagName(Runtime) == "runtime" && FlagName(Test) == "testtime";
  }

  /** The sets after reading, and whether an exception stopped the read. */
  datatype Reading = Reading(deps: DepSets, outcome: Outcome<XmlError>)

  /** Reads the records in order; the first invalid flag stops the read
      and keeps what the earlier records added. */
  function ReadRecords(d: DepSets, recs: seq<Element>): (r: Reading)
    ensures forall k :: Of(d, k) <= Of(r.deps, k)
    decreases |recs|
  {
    if recs == [] then Reading(d, Pass)
    else
      var prev := ReadRecords(d, recs[..|recs| - 1]);
      if prev.outcome.Fail? then prev
      else
        AddRecordSpec(prev.deps, recs[|recs| - 1]);
        match AddRecord(prev.deps, recs[|recs| - 1])
        case Err(e) => Reading(prev.deps, Fail(e))
        case Ok(d') => Reading(d', Pass)
  }

  /** The read succeeds exactly when every record's flags are valid. */
  lemma {:induction false} ReadRecordsPass(d: DepSets, recs: seq<Element>)
    ensures ReadRecords(d, recs).outcome.Pass? <==> forall i :: 0 <= i < |recs| ==> FlagsValid(recs[i])
    decreases |recs|
  {
    if recs != [] {
      var init, last := recs[..|recs| - 1], recs[|recs| - 1];
      ReadRecordsPass(d, init);
      assert forall i :: 0 <= i < |init| ==> init[i] == recs[i];
      assert (forall i :: 0 <= i < |recs| ==> FlagsValid(recs[i])) <==>
             (forall i :: 0 <= i < |init| ==> FlagsValid(init[i])) && FlagsValid(last);
      var prev := ReadRecords(d, init);
      if prev.outcome.Pass? {
        AddRecordSpec(prev.deps, last);
      }
    }
  }

  /** Record `i` read after a successful read of the records before it. */
  lemma ReadRecordsNext(d: DepSets, recs: seq<Element>, i: nat, before: DepSets)
    requires i < |recs| && ReadRecords(d, recs[..i]) == Reading(before, Pass)
    ensures ReadRecords(d, recs[..i + 1]) ==
              match AddRecord(before, recs[i])
              case Err(e) => Reading(before, Fail(e))
              case Ok(d') => Reading(d', Pass)
  {
    assert recs[..i + 1][..i] == recs[..i];
  }

  /** `xml_elem.findall("depends")`: the children tagged `depends`, in
      document order. */
  function DependsRecords(cs: seq<Element>): seq<Element>
    decreases |cs|
  {
    if cs == [] then []
    else DependsRecords(cs[..|cs| - 1]) + (if cs[|cs| - 1].tag == "depends" then [cs[|cs| - 1]] else [])
  }

  /** The records found are exactly the children tagged `depends`. */
  lemma {:induction false} DependsRecordsMembers(cs: seq<Element>)
    ensures forall c :: c in DependsRecords(cs) <==> c in cs && c.tag == "depends"
    decreases |cs|
  {
    if cs != [] {
      var init, c := cs[..|cs| - 1], cs[|cs| - 1];
      assert cs == init + [c];
      DependsRecordsMembers(init);
    }
  }

  /** `read_deps_from_xml(target, xml_elem)` on sets `d`. */
  function ReadDeps(d: DepSets, e: Element): Reading {
    ReadRecords(d, DependsRecords(e.children))
  }

  /** After a successful read, a name is in a kind's set iff it was there
      before or some record lists it with that kind's flag true. */
  lemma {:induction false} ReadRecordsContents(d: DepSets, recs: seq<Element>, k: Kind, n: string)
    requires ReadRecords(d, recs).outcome.Pass?
    ensures n in Of(ReadRecords(d, recs).deps, k) <==>
              n in Of(d, k) || exists rec :: rec in recs && Flagged(rec, k) && n in ParseListAttr(rec, "names")
    decreases |recs|
  {
    if recs != [] {
      var init, last := recs[..|recs| - 1], recs[|recs| - 1];
      assert recs == init + [last];
      ReadRecordsContents(d, init, k, n);
      var prev := ReadRecords(d, init);
      AddRecordSpec(prev.deps, last);
      assert AddRecord(prev.deps, last).Ok?;
    }
  }

  /** Once a record fails, the records after it are not read. */
  lemma {:induction false} ReadStopsAtError(d: DepSets, recs: seq<Element>, i: nat)
    requires i < |recs| && ReadRecords(d, recs[..i + 1]).outcome.Fail?
    ensures ReadRecords(d, recs) == ReadRecords(d, recs[..i + 1])
    decreases |recs|
  {
    if i + 1 < |recs| {
      var init := recs[..|recs| - 1];
      assert init[..i + 1] == recs[..i + 1];
      ReadStopsAtError(d, init, i);
    } else {
      assert recs[..i + 1] == recs;
    }
  }

  /** A target object's three sets, updated in place. */
  class DepsTarget {
    var buildDepends: set<string>
    var runDepends: set<string>
    var testDepends: set<string>

    function Deps(): DepSets
      reads this
    {
      DepSets(buildDepends, runDepends, testDepends)
    }

    constructor (d: DepSets)
      ensures Deps() == d
    {
      buildDepends, runDepends, testDepends := d.build, d.run, d.test;
    }
  }

  /** One turn of the outer loop of `read_deps_from_xml`: parses the
      three flags, raising on the first invalid one before anything is
      added, then adds every listed name to the set of each kind switched
      on. */
  method ReadRecord(target: DepsTarget, rec: Element) returns (r: Outcome<XmlError>)
    modifies target
    ensures AddRecord(old(target.Deps()), rec).Ok? ==>
              r == Pass && target.Deps() == AddRecord(old(target.Deps()), rec).value
    ensures AddRecord(old(target.Deps()), rec).Err? ==>
              r == Fail(AddRecord(old(target.Deps()), rec).error) && target.Deps() == old(target.Deps())
  {
    var buildtime := ParseBoolAttr(rec, "buildtime", false);
    if buildtime.Err? {
      return Fail(buildtime.error);
    }
    var runtime := ParseBoolAttr(rec, "runtime", false);
    if runtime.Err? {
      return Fail(runtime.error);
    }
    var testtime := ParseBoolAttr(rec, "testtime", false);
    if testtime.Err? {
      return Fail(testtime.error);
    }
    AddNames(target, ParseListAttr(rec, "names"), buildtime.value, runtime.value, testtime.value);
    r := Pass;
  }

  /** The inner loop of `read_deps_from_xml`: adds every name to the set
      of each kind switched on. */
  method AddNames(target: DepsTarget, names: seq<string>, buildtime: bool, runtime: bool, testtime: bool)
    modifies target
    ensures target.buildDepends == old(target.buildDepends) + (if buildtime then Words(names) else {})
    ensures target.runDepends == old(target.runDepends) + (if runtime then Words(names) else {})
    ensures target.testDepends == old(target.testDepends) + (if testtime then Words(names) else {})
  {
    var j := 0;
    while j < |names|
      invariant 0 <= j <= |names|
      invariant target.buildDepends == old(target.buildDepends) + (if buildtime then Words(names[..j]) else {})
      invariant target.runDepends == old(target.runDepends) + (if runtime then Words(names[..j]) else {})
      invariant target.testDepends == old(target.testDepends) + (if testtime then Words(names[..j]) else {})
    {
      assert Words(names[..j + 1]) == Words(names[..j]) + {names[j]} by {
        assert names[..j + 1] == names[..j] + [names[j]];
      }
      if buildtime {
        target.buildDepends := target.buildDepends + {names[j]};
      }
      if runtime {
        target.runDepends := target.runDepends + {names[j]};
      }
      if testtime {
        target.testDepends := target.testDepends + {names[j]};
      }
      j := j + 1;
    }
    assert names[..j] == names;
  }

  /** `read_deps_from_xml(target, xml_elem)`: adds the names of every
      `<depends>` record to the target's sets; an invalid flag raises, and
      the additions of the earlier records stay. */
  method ReadDepsFromXml(target: DepsTarget, e: Element) returns (r: Outcome<XmlError>)
    modifies target
    ensures target.Deps() == ReadDeps(old(target.Deps()), e).deps
    ensures r == ReadDeps(old(target.Deps()), e).outcome
  {
    ghost var d0 := target.Deps();
    var recs := DependsRecords(e.children);
    var i := 0;
    while i < |recs|
      invariant 0 <= i <= |recs|
      invariant ReadRecords(d0, recs[..i]) == Reading(target.Deps(), Pass)
    {
      ghost var before := target.Deps();
      ReadRecordsNext(d0, recs, i, before);
      r := ReadRecord(target, recs[i]);
      if r.Fail? {
        assert ReadRecords(d0, recs[..i + 1]) == Reading(before, r);
        ReadStopsAtError(d0, recs, i);
        return;
      }
      assert ReadRecords(d0, recs[..i + 1]) == Reading(target.Deps(), Pass);
      i := i + 1;
    }
    assert recs[..i] == recs;
    r := Pass;
  }

  // ----- dump_deps_to_xml -----

  /** `ws` lists the set `s`, each element once, in some order: what
      iterating a Python set gives. */
  predicate Enumerates(ws: seq<string>, s: set<string>) {
    Words(ws) == s && forall i, j :: 0 <= i < j < |ws| ==> ws[i] != ws[j]
  }

  /** Iterates a set, in an order the model leaves open. */
  method ListSet(s: set<string>) returns (ws: seq<string>)
    ensures Enumerates(ws, s)
  {
    ws := [];
    var todo := s;
    while todo != {}
      invariant todo <= s
      invariant Words(ws) == s - todo
      invariant forall i, j :: 0 <= i < j < |ws| ==> ws[i] != ws[j]
      decreases todo
    {
      var w :| w in todo;
      assert Words(ws + [w]) == Words(ws) + {w};
      ws := ws + [w];
      todo := todo - {w};
    }
  }

  /** The `<depends>` sub-element written for one kind: only its own flag,
      set to "true", and the names joined by single spaces. */
  function DependsRecord(k: Kind, names: seq<string>): Element {
    Element("depends", map[FlagName(k) := "true", "names" := Join(names, " ")], None, None, [])
  }

  function RecordIf(d: DepSets, k: Kind, ws: seq<string>): seq<Element> {
    if Of(d, k) != {} then [DependsRecord(k, ws)] else []
  }

  /** The records `dump_deps_to_xml` appends, given the order in which each
      set is iterated: one per non-empty set, build first, then runtime,
      then test. */
  function DumpRecords(d: DepSets, bws: seq<string>, rws: seq<string>, tws: seq<string>): seq<Element> {
    RecordIf(d, Build, bws) + RecordIf(d, Runtime, rws) + RecordIf(d, Test, tws)
  }

  /** No name is empty or holds whitespace. */
  predicate AllTokens(d: DepSets) {
    forall k, n :: n in Of(d, k) ==> IsToken(n)
  }

  /** Reading one record written for kind `k` adds exactly its names to
      the set of `k`. */
  lemma AddDumpedRecord(d: DepSets, k: Kind, ws: seq<string>)
    requires forall i :: 0 <= i < |ws| ==> IsToken(ws[i])
    ensures AddRecord(d, DependsRecord(k, ws)).Ok?
    ensures forall k' :: Of(AddRecord(d, DependsRecord(k, ws)).value, k') ==
              Of(d, k') + (if k' == k then Words(ws) else {})
  {
    var rec := DependsRecord(k, ws);
    AddRecordSpec(d, rec);
    ParseListAttrOfJoin(rec, "names", ws);
    forall k' ensures ParseBoolAttr(rec, FlagName(k'), false) == Ok(k' == k) {
      assert FlagName(k') == FlagName(k) <==> k' == k;
    }
  }

  /** `d` with the names `s` added to the set of kind `k`. */
  function Extend(d: DepSets, k: Kind, s: set<string>): (r: DepSets)
    ensures forall k' :: Of(r, k') == Of(d, k') + (if k' == k then s else {})
  {
    match k
    case Build => d.(build := d.build + s)
    case Runtime => d.(run := d.run + s)
    case Test => d.(test := d.test + s)
  }

  /** Appending the record of one kind to records that read back as `d1`. */
  lemma ReadDumpedSnoc(d: DepSets, recs: seq<Element>, d1: DepSets, subject: DepSets, k: Kind, ws: seq<string>)
    requires ReadRecords(d, recs) == Reading(d1, Pass)
    requires Enumerates(ws, Of(subject, k)) && AllTokens(subject)
    ensures ReadRecords(d, recs + RecordIf(subject, k, ws)) == Reading(Extend(d1, k, Of(subject, k)), Pass)
  {
    var goal := Extend(d1, k, Of(subject, k));
    if Of(subject, k) != {} {
      assert forall i :: 0 <= i < |ws| ==> IsToken(ws[i]) by {
        forall i | 0 <= i < |ws| ensures IsToken(ws[i]) {
          assert ws[i] in Words(ws);
        }
      }
      AddDumpedRecord(d1, k, ws);
      var got := AddRecord(d1, DependsRecord(k, ws)).value;
      assert Of(got, Build) == Of(goal, Build) && Of(got, Runtime) == Of(goal, Runtime) && Of(got, Test) == Of(goal, Test);
      assert got == goal;
      var all := recs + RecordIf(subject, k, ws);
      assert all[..|all| - 1] == recs;
    } else {
      assert Of(d1, Build) == Of(goal, Build) && Of(d1, Runtime) == Of(goal, Runtime) && Of(d1, Test) == Of(goal, Test);
      assert d1 == goal;
      assert recs + RecordIf(subject, k, ws) == recs;
    }
  }

  /** Dumping three sets and reading the records back into empty sets
      gives the three sets, when no name is empty or holds whitespace. */
  lemma DumpThenRead(subject: DepSets, bws: seq<string>, rws: seq<string>, tws: seq<string>)
    requires Enumerates(bws, subject.build) && Enumerates(rws, subject.run) && Enumerates(tws, subject.test)
    requires AllTokens(subject)
    ensures ReadRecords(NoDeps, DumpRecords(subject, bws, rws, tws)) == Reading(subject, Pass)
  {
    var b, r := RecordIf(subject, Build, bws), RecordIf(subject, Runtime, rws);
    ReadDumpedSnoc(NoDeps, [], NoDeps, subject, Build, bws);
    assert [] + b == b;
    var d1 := Extend(NoDeps, Build, subject.build);
    ReadDumpedSnoc(NoDeps, b, d1, subject, Runtime, rws);
    var d2 := Extend(d1, Runtime, subject.run);
    ReadDumpedSnoc(NoDeps, b + r, d2, subject, Test, tws);
    ExtendAll(subject);
  }

  /** Extending the empty sets kind by kind with the sets of `d` gives `d`. */
  lemma ExtendAll(d: DepSets)
    ensures Extend(Extend(Extend(NoDeps, Build, d.build), Runtime, d.run), Test, d.test) == d
  {
    assert {} + d.build == d.build && {} + d.run == d.run && {} + d.test == d.test;
  }

  /** The element with the dumped records appended reads back, into empty
      sets, as the sets dumped, as long as it held no `<depends>` record
      before and no name is empty or holds whitespace. */
  lemma DumpedElementReadsBack(subject: DepSets, e: Element, bws: seq<string>, rws: seq<string>, tws: seq<string>)
    requires Enumerates(bws, subject.build) && Enumerates(rws, subject.run) && Enumerates(tws, subject.test)
    requires AllTokens(subject) && DependsRecords(e.children) == []
    ensures ReadDeps(NoDeps, e.(children := e.children + DumpRecords(subject, bws, rws, tws))) == Reading(subject, Pass)
  {
    var dumped := DumpRecords(subject, bws, rws, tws);
    var e2 := e.(children := e.children + dumped);
    DumpedAreDependsRecords(subject, bws, rws, tws);
    AllDependsRecords(dumped);
    DependsRecordsAppend(e.children, dumped);
    assert DependsRecords(e.children) + dumped == dumped;
    assert DependsRecords(e2.children) == dumped;
    DumpThenRead(subject, bws, rws, tws);
  }

  lemma DumpedAreDependsRecords(subject: DepSets, bws: seq<string>, rws: seq<string>, tws: seq<string>)
    ensures forall i :: 0 <= i < |DumpRecords(subject, bws, rws, tws)| ==> DumpRecords(subject, bws, rws, tws)[i].tag == "depends"
  {
    var a, b, c := RecordIf(subject, Build, bws), RecordIf(subject, Runtime, rws), RecordIf(subject, Test, tws);
    assert forall x: Element :: x in a + b + c ==> x.tag == "depends";
  }

  /** `dump_deps_to_xml(subject, xml_elem)`, returning the element with the
      records appended: one `<depends>` per non-empty set, none for an
      empty one. Read back into empty sets, the element gives the sets
      dumped, as long as it held no `<depends>` record before. */
  method DumpDepsToXml(subject: DepSets, e: Element) returns (r: Element)
    ensures r.tag == e.tag && r.attrib == e.attrib && r.text == e.text && r.tail == e.tail
    ensures exists bws, rws, tws ::
              Enumerates(bws, subject.build) && Enumerates(rws, subject.run) && Enumerates(tws, subject.test) &&
              r.children == e.children + DumpRecords(subject, bws, rws, tws)
    ensures AllTokens(subject) && DependsRecords(e.children) == [] ==>
              ReadDeps(NoDeps, r) == Reading(subject, Pass)
  {
    var bws := ListSet(subject.build);
    var rws := ListSet(subject.run);
    var tws := ListSet(subject.test);
    var children := e.children;
    if subject.build != {} {
      children := children + [DependsRecord(Build, bws)];
    }
    if subject.run != {} {
      children := children + [DependsRecord(Runtime, rws)];
    }
    if subject.test != {} {
      children := children + [DependsRecord(Test, tws)];
    }
    r := e.(children := children);
    assert r.children == e.children + DumpRecords(subject, bws, rws, tws);
    if AllTokens(subject) && DependsRecords(e.children) == [] {
      DumpedElementReadsBack(subject, e, bws, rws, tws);
    }
  }

  lemma {:induction false} DependsRecordsAppend(a: seq<Element>, b: seq<Element>)
    ensures DependsRecords(a + b) == DependsRecords(a) + DependsRecords(b)
    decreases |b|
  {
    if b == [] {
      assert a + b == a;
    } else {
      var init, c := b[..|b| - 1], b[|b| - 1];
      var tail := if c.tag == "depends" then [c] else [];
      assert (a + b)[..|a + b| - 1] == a + init;
      assert DependsRecords(a + b) == DependsRecords(a + init) + tail;
      assert DependsRecords(b) == DependsRecords(init) + tail;
      DependsRecordsAppend(a, init);
      assert DependsRecords(a) + DependsRecords(init) + tail == DependsRecords(a) + (DependsRecords(init) + tail);
    }
  }

  /** A list of `<depends>` records is found whole. */
  lemma {:induction false} AllDependsRecords(rs: seq<Element>)
    requires forall i :: 0 <= i < |rs| ==> rs[i].tag == "depends"
    ensures DependsRecords(rs) == rs
    decreases |rs|
  {
    if rs != [] {
      var init := rs[..|rs| - 1];
      assert forall i :: 0 <= i < |init| ==> init[i] == rs[i];
      AllDependsRecords(init);
      assert DependsRecords(rs) == DependsRecords(init) + [rs[|rs| - 1]];
      assert init + [rs[|rs| - 1]] == rs;
    }
  }
}
