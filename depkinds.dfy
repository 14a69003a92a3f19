/** The typed dependency edges shared by worktree projects and toolchain
    packages. */
module DepKinds {

  /** One entry of a `dep_types` list: "build", "runtime" or "test". */
  datatype Kind = Build | Runtime | Test

  /** The `build_depends`, `run_depends` and `test_depends` name sets of a
      project or a package. */
  datatype DepSets = DepSets(build: set<string>, run: set<string>, test: set<string>)

  const NoDeps := DepSets({}, {}, {})

  /** The name set of one kind. */
  function Of(d: DepSets, k: Kind): set<string> {
    match k
    case Build => d.build
    case Runtime => d.run
    case Test => d.test
  }

  /** The edge set the solvers put in `to_sort` for one node: the union of
      exactly the sets whose kind is selected. */
  function Selected(d: DepSets, kinds: set<Kind>): (r: set<string>)
    ensures forall x :: x in r <==> exists k :: k in kinds && x in Of(d, k)
  {
    (if Build in kinds then d.build else {})
    + (if Runtime in kinds then d.run else {})
    + (if Test in kinds then d.test else {})
  }

  /** `qisys.sort.topological_sort(to_sort, roots)`. Its code is not part of
      this model, so the solvers take it as a parameter and nothing is
      assumed about its output. */
  type Sorter = (map<string, set<string>>, seq<string>) -> seq<string>
}
