# qibuild core, modelled in Dafny

This project models four pieces of qibuild:

- **The toolchain package database** (`qitoolchain.database.DataBase`). It is a name-keyed store of toolchain packages, persisted as a list of `<package>` and `<svn_package>` records. Its `update` operation reconciles the store with a remote feed in this order:
  1. the feed's archives are compared with the local packages;
  2. out-of-date local packages are re-installed;
  3. packages gone from the feed are removed;
  4. new archives are added;
  5. every subversion package is checked out or updated;
  6. the result is saved.
- **The dependency solver of a build worktree** (`qibuild.deps.DepsSolver`). It finds the projects, toolchain packages and SDK directories a list of projects depends on, forwards (through a topological sort) or backwards (the projects that depend on them). It also reads and writes `<depends>` elements.
- **The ElementTree helpers of `qisys.qixml`**:
  - the attribute validators for booleans, integers, word lists and required attributes;
  - the `indent` pretty-printer;
  - the reflective `XMLParser` that dispatches children to handlers and binds attributes to a target object's fields.
- **The `FakeGit` test double** used by the qisrc tests. It plays scripted answers to git commands, keeps a shared per-repository configuration, logs every call and checks at the end that every scripted answer was consumed.

## How the model is built

- Packages, projects, XML elements and dependency sets are datatypes.
- Objects that the source updates in place are classes with `modifies` clauses:
  - `DataBase`;
  - `XMLParser`;
  - the target of `read_deps_from_xml`;
  - `FakeGit` and its shared configuration store.
- The loops that update an object in place, or build the lists `update` works from, are methods with loop invariants. Each method is proved equal to a specification function, and the properties are proved as lemmas about those functions. These loops are:
  - `DataBase` loading, saving and `solve_deps`;
  - the to-add, to-remove and to-update lists of `update`, and each install phase;
  - the reading of `<depends>` records into a target;
  - the attribute binding and child dispatch of `XMLParser`;
  - the scripted-answer bookkeeping of `FakeGit`.
- The loops of `DepsSolver` (`get_dep_projects`, `get_dep_packages`, `get_sdk_dirs`, `_get_sorted_names`) and of `indent` only compute a value from their inputs. They are recursive functions (`DepProjects`, `Unshadowed`, `SdkDirsExcept`, `ReverseDeps`, `EdgeMap`) or a sequence comprehension (`Indent`).
- Python exceptions become `Result`/`Outcome` values (`DbError`, `XmlError`, `GitError`).
- Dictionary and set iteration, whose order Python leaves unspecified, is modelled by choosing an arbitrary remaining element.

The following collaborators are not part of this model. They become parameters, or assumptions stated in the contracts:

- the checksum of a downloaded archive (`archiveChecksum`);
- `qisys.sh.to_native_path`, which makes a local package's directory absolute and resolves it on the file system (`nativePath`);
- `qisys.sort.topological_sort` (a `Sorter` function);
- the feed parser and its comparison of packages (`same`, for Python's `==` on packages);
- the result of `load_package_xml` (a `conflict` flag);
- the worktree's `Toolchain` (modelled by its name-keyed package map, solved with the same `Resolved`/`DepGraph` functions as `DataBase.solve_deps`).

## Model

| member | source | states |
|---|---|---|
| Text.Split | python/qisys/qixml.py:96 | every word `str.split()` returns is non-empty and free of whitespace |
| Text.SplitJoin | python/qibuild/deps.py:127 | words joined by single spaces split back into exactly the same words |
| Text.JoinSplit | python/qisys/qixml.py:96 | re-joining the words of a split string and splitting again gives the same words |
| Text.LessIsStrictTotalOrder | python/qibuild/deps.py:87 | the string order used by `sorted` is irreflexive, transitive and total |
| Text.InsertSorted | python/qibuild/deps.py:76-87 | inserting into a strictly ascending list keeps it strictly ascending, with the new element added and nothing else |
| Text.ParseDecimalOfInt | python/qisys/qixml.py:82 | `int(str(n)) == n` for every integer |
| DepKinds.Selected | python/qibuild/deps.py:91-98 | a name is selected exactly when one of the requested dependency kinds lists it |
| QiXml.ParseBoolAttr | python/qisys/qixml.py:47-68 | "true"/"1" give true, "false"/"0" give false, a missing attribute gives the default, any other value is an error naming the attribute |
| QiXml.ParseIntAttr | python/qisys/qixml.py:70-87 | a missing or empty attribute gives the default, or an error when there is none; otherwise the value is the decimal literal's integer, or a not-an-integer error |
| QiXml.ParseIntAttrOfDecimal | python/qisys/qixml.py:70-87 | an attribute written as `str(n)` reads back as `n`, whatever the default |
| QiXml.ParseListAttr | python/qisys/qixml.py:90-96 | a missing attribute gives no words; every word is a non-empty whitespace-free token |
| QiXml.ParseListAttrOfJoin | python/qisys/qixml.py:90-96 | an attribute holding tokens joined by spaces reads back as exactly those tokens |
| QiXml.ParseRequiredAttr | python/qisys/qixml.py:98-106 | an error exactly when the attribute is missing or empty, otherwise its value unchanged |
| QiXml.Indent | python/qisys/qixml.py:14-31 | only blank text and tail fields are rewritten, at every depth (tags, attributes, children and non-blank text are kept); the root's tail and the tail of an element with children are untouched; a blank-tailed leaf below the root ends its line at its own depth |
| QiXml.IndentNests | python/qisys/qixml.py:23-26 | every child of the result is that child indented one level deeper, up to its tail, so the layout holds at every depth |
| QiXml.IndentLayout | python/qisys/qixml.py:20-28 | a blank text opens a line one level deeper, blank tails of all children but the last start the next sibling's line, and the last child's blank tail returns to the parent's depth |
| XmlParsing.ValueForType | python/qisys/qixml.py:267-276 | a bool field accepts true/1/false/0 in any letter case and rejects anything else; other fields take the raw string |
| XmlParsing.ValueForTypeIgnoresCase | python/qisys/qixml.py:269 | "True", "TRUE" and "true" all bind a bool field to true |
| XmlParsing.XMLParser.ParseAttributes | python/qisys/qixml.py:245-258 | succeeds exactly when every attribute naming a field can be bound; then each such field holds the coerced value, the others are unchanged and no field is created |
| XmlParsing.XMLParser.Parse | python/qisys/qixml.py:194-229 | the root's attributes are bound first, and a value that cannot be bound is an error before any child is seen; the target gains no field; when no child descends, the target afterwards holds exactly the root's attributes bound onto it; on success the backtrace is restored; every handler below the root sees the root's tag on top of the caller's backtrace; when no child descends, exactly the inspecting handlers run, in child order, and children without a handler leave no trace |
| XmlParsing.XMLParser.ParseChildren | python/qisys/qixml.py:205-217 | the loop over the children; when no child descends, the inspections are exactly those of the inspecting children, in order |
| XmlParsing.XMLParser.ParseTurn | python/qisys/qixml.py:205-217 | one turn of the loop extends the inspections by the current child's |
| XmlParsing.XMLParser.ParseChild | python/qisys/qixml.py:206-229 | a child with a descending handler is parsed recursively; otherwise nothing changes but the inspection its handler makes, if it has one |
| XmlParsing.InspectedChildrenMembers | python/qisys/qixml.py:205-217 | exactly the children with an inspecting handler are inspected, each with the same backtrace |
| XmlParsing.XMLParser.CheckNeeded | python/qisys/qixml.py:278-289 | an error exactly when the given value is None and the target's field is missing or None |
| Packages.DownloadPackage | python/qitoolchain/database.py:237-269 | a checksum mismatch is an error only without `update_checksums` and with a checksum in the feed; after success the path is under the packages directory and the checksum is the archive's unless the feed had none |
| Packages.HandlePackage | python/qitoolchain/database.py:212-234 | a URL is downloaded, else a directory is used in place: it is taken relative to the feed's directory and made native with `to_native_path`, else it is an error; only path and checksum change |
| FeedDiff.SvnPackages | python/qitoolchain/database.py:142-143 | exactly the subversion packages of the feed |
| FeedDiff.OtherPackages | python/qitoolchain/database.py:144 | exactly the feed entries not equal to a subversion package; none of them is a subversion package |
| FeedDiff.OtherPackagesAreArchives | python/qitoolchain/database.py:142-144 | when package equality never equates a subversion package with an archive, the other packages are exactly the feed's archives |
| FeedDiff.ToAdd | python/qitoolchain/database.py:147-150 | exactly the feed entries not equal to a subversion package whose name no local package has |
| FeedDiff.ToAddNames | python/qitoolchain/database.py:142-150 | when package equality keeps kinds apart, the names added are the feed's archive names minus the local names |
| FeedDiff.ToAddNamesBetween | python/qitoolchain/database.py:142-150 | when `same` equates a subversion package with an archive only if they share a name, the names added are archive names not installed, and include every such name that no subversion package of the feed has |
| FeedDiff.ToRemoveNames | python/qitoolchain/database.py:152-154 | the names removed are the local names minus the feed's names |
| FeedDiff.ToRemove | python/qitoolchain/database.py:152-154 | exactly the local packages whose name is not in the feed |
| FeedDiff.ToUpdate | python/qitoolchain/database.py:156-167 | exactly the first feed packages named like an installed package that needs an update, when those are archives; each is in the feed and named like an installed package |
| FeedDiff.CollectToAdd | python/qitoolchain/database.py:147-150 | the loop builds exactly the to-add list |
| FeedDiff.CollectToRemove | python/qitoolchain/database.py:152-154 | the loop builds exactly the to-remove list |
| FeedDiff.CollectToUpdate | python/qitoolchain/database.py:156-167 | the loop and the final filter build exactly the to-update list |
| FeedDiff.Removed | python/qitoolchain/database.py:80-86 | removing a missing name is a no-such-package error; otherwise only that key goes and every other entry is kept |
| FeedDiff.Added | python/qitoolchain/database.py:70-78 | a conflict in strict mode is an error; otherwise the package is stored under its name and every other entry is kept |
| FeedDiff.Step | python/qitoolchain/database.py:169-203 | one install step removes or stores exactly the package's name; an updated package must already be present; a stored package is the feed package installed |
| FeedDiff.ApplyFrame | python/qitoolchain/database.py:169-203 | a phase leaves every entry whose name it does not mention unchanged |
| FeedDiff.ApplyKeys | python/qitoolchain/database.py:169-203 | after a phase the keys are the old ones minus the removed names, or plus the installed names |
| FeedDiff.ApplyStopsAtError | python/qitoolchain/database.py:169-203 | the first failing step ends the whole phase with its error |
| FeedDiff.KeptNames | python/qitoolchain/database.py:169-189 | after the updating and removing phases exactly the installed names that the feed still lists remain |
| FeedDiff.ReconciledNames | python/qitoolchain/database.py:121-210 | after a successful update the database holds exactly the feed's package names, provided `same` equates a subversion package with an archive only when they share a name |
| FeedDiff.ReconciledKeyedByName | python/qitoolchain/database.py:121-210 | update keeps every package stored under its own name |
| FeedDiff.NotUpdatedName | python/qitoolchain/database.py:156-167 | an installed package that needs no update is not in the to-update list |
| FeedDiff.ReconcileKeepsUntouched | python/qitoolchain/database.py:121-210 | an installed package that is still in the feed, needs no update and is not named by a subversion package of the feed keeps its database entry |
| FeedDiff.ReconcileNeverMissesAPackage | python/qitoolchain/database.py:169-203 | update never fails with no-such-package: every package it updates or removes is present when reached |
| FeedDiff.CandidatesUniqueNames | python/qitoolchain/database.py:156-165 | the update candidates of a list without duplicate names have no duplicate names |
| Database.InsertAllLastWins | python/qitoolchain/database.py:45-53 | when a file lists a name several times, the last record wins |
| Database.LoadedSvnWins | python/qitoolchain/database.py:45-53 | a subversion record is loaded after the archives and overrides an archive of the same name |
| Database.LoadSaved | python/qitoolchain/database.py:45-62 | loading what `save` wrote gives back exactly the saved package map |
| Database.Resolved | python/qitoolchain/database.py:114-119 | a package is in the result exactly when one of the sorted names is a known package's name |
| Database.ResolvedKeepsOrder | python/qitoolchain/database.py:114-119 | resolved packages appear in the order of the sorted names |
| Database.DataBase.constructor | python/qitoolchain/database.py:34-43 | the database starts strict and holds what loading the file gives |
| Database.DataBase.Load | python/qitoolchain/database.py:45-53 | archives are loaded, then subversion packages, each overriding the same name |
| Database.DataBase.Values | python/qitoolchain/database.py:59 | lists every stored package once |
| Database.DataBase.Save | python/qitoolchain/database.py:55-62 | the file lists the packages, and loading it gives back the same map |
| Database.DataBase.AddPackage | python/qitoolchain/database.py:70-78 | a conflict in strict mode fails with nothing changed; otherwise the package is stored and its path is what `get_package_path` returns |
| Database.DataBase.RemovePackage | python/qitoolchain/database.py:80-86 | fails exactly on an unknown name; otherwise only that entry goes and `get_package` then raises for it |
| Database.DataBase.GetPackagePath | python/qitoolchain/database.py:88-91 | the path of a stored package, None for an unknown name |
| Database.DataBase.GetPackage | python/qitoolchain/database.py:93-99 | the stored package, None for an unknown name, or an error for one when `raises` |
| Database.BuildGraph | python/qitoolchain/database.py:102-113 | the first loop of `solve_deps` builds exactly the selected dependency graph of the stored packages |
| Database.ResolveNames | python/qitoolchain/database.py:115-119 | the second loop keeps exactly the sorted names that are stored packages, in order |
| Database.DataBase.SolveDeps | python/qitoolchain/database.py:101-119 | the packages named by sorting the selected dependency graph from the given roots, in that order |
| Database.DataBase.RunStep | python/qitoolchain/database.py:169-203 | one install step on the live database does what the step function gives, or fails with its error |
| Database.DataBase.RunTurn | python/qitoolchain/database.py:169-203 | one turn of a phase loop extends the phase function by one package, or ends the phase with the step's error |
| Database.DataBase.RunPhase | python/qitoolchain/database.py:169-203 | running one phase step by step matches the phase function, failing with the first step's error |
| Database.DataBase.RunPhases | python/qitoolchain/database.py:169-203 | the four phases in order give the reconciliation of the old map with the feed, or its error |
| Database.DataBase.Update | python/qitoolchain/database.py:121-210 | the new map is the reconciliation of the old one with the feed; on success the saved file lists it; on failure the file is untouched; checksums are written only after success with `update_checksums` |
| Deps.EdgeMapEntry | python/qibuild/deps.py:89-98 | each project's graph entry is the union of its selected dependency kinds, the last project of a name winning |
| Deps.HitsAnyIsDirect | python/qibuild/deps.py:77-86 | the three per-kind checks hold exactly when the project directly depends on a root through a requested kind |
| Deps.ReverseDeps | python/qibuild/deps.py:75-87 | strictly ascending, and exactly the projects directly depending on a root through a requested kind |
| Deps.SortedNames | python/qibuild/deps.py:73-99 | backwards: the sorted reverse dependencies; forwards: the topological sort of the selected graph from the roots' names |
| Deps.FindProject | python/qibuild/deps.py:30 | finds a project exactly when one has the name |
| Deps.DepProjectsFollowNames | python/qibuild/deps.py:29-32 | the projects found have exactly the names that resolve, in sorted order |
| Deps.GetDepProjects | python/qibuild/deps.py:16-33 | the resolvable sorted names, in order, each mapped to a project of the worktree |
| Deps.GetDepPackages | python/qibuild/deps.py:35-56 | nothing without a toolchain; never a package shadowed by a build project; otherwise exactly the toolchain's solution for the packages named by the sorted names |
| Deps.UnshadowedKeepsOrder | python/qibuild/deps.py:53-55 | dropping shadowed packages keeps the order of the others |
| Deps.GetDepPackagesKeepsOrder | python/qibuild/deps.py:50-56 | the packages kept appear in the order the toolchain's `solve_deps` returned them |
| Deps.GetSdkDirs | python/qibuild/deps.py:58-70 | exactly the SDK directories of the dependency projects other than the project itself |
| Deps.SdkDirsExceptKeepsOrder | python/qibuild/deps.py:66-69 | the directories keep the order of their projects |
| Deps.GetSdkDirsKeepsOrder | python/qibuild/deps.py:58-70 | the directories come in the order `get_dep_projects` gives the projects |
| Deps.AddRecordSpec | python/qibuild/deps.py:110-121 | one `<depends>` record: an invalid flag is a bad-bool error naming a flag; otherwise the record's names are added to each flagged kind and nothing else changes |
| Deps.AddNames | python/qibuild/deps.py:115-121 | the inner loop adds the record's names to exactly the flagged target sets |
| Deps.ReadRecords | python/qibuild/deps.py:110-121 | reading never removes a name |
| Deps.ReadRecordsPass | python/qibuild/deps.py:110-121 | reading succeeds exactly when every record's flags are valid |
| Deps.DependsRecordsMembers | python/qibuild/deps.py:108 | the records read are exactly the element's `<depends>` children |
| Deps.ReadRecordsContents | python/qibuild/deps.py:110-121 | after a successful read a kind holds exactly its old names plus the names of the records flagging it |
| Deps.ReadStopsAtError | python/qibuild/deps.py:110-121 | the first invalid record ends the reading |
| Deps.ReadDepsFromXml | python/qibuild/deps.py:102-121 | the target's sets become what the reading function gives, and the outcome is its outcome |
| Deps.ListSet | python/qibuild/deps.py:127 | lists every element of a set once |
| Deps.DumpThenRead | python/qibuild/deps.py:123-135 | reading the dumped records from scratch gives back exactly the dumped dependency sets |
| Deps.DumpedElementReadsBack | python/qibuild/deps.py:102-135 | an element without `<depends>` children, once dumped into, reads back as the dumped sets |
| Deps.DumpDepsToXml | python/qibuild/deps.py:123-135 | only the children change: one record per non-empty kind is appended, and the element reads back as the subject when names are tokens |
| FakeGitMock.NextAnswer | python/qisrc/test/conftest.py:250-266 | an unknown command is an error; an exhausted one reports calls and configured answers; otherwise the next scripted answer |
| FakeGitMock.FakeGit.constructor | python/qisrc/test/conftest.py:227-233 | the shared store gets an empty config for a new repository and keeps an existing one |
| FakeGitMock.FakeGit.GetConfig | python/qisrc/test/conftest.py:235-236 | the repository's configured value for the name, None when unset |
| FakeGitMock.FakeGit.SetConfig | python/qisrc/test/conftest.py:238-239 | only that name of that repository changes |
| FakeGitMock.FakeGit.AddResult | python/qisrc/test/conftest.py:241-248 | appends one scripted answer to the command's list |
| FakeGitMock.FakeGit.GetResult | python/qisrc/test/conftest.py:250-266 | returns the next scripted answer and advances only that command's index; answers are served in the order they were scripted |
| FakeGitMock.FakeGit.Check | python/qisrc/test/conftest.py:268-278 | passes exactly when every scripted answer was consumed; otherwise names a command never called or called too few times |
| FakeGitMock.FakeGit.Called | python/qisrc/test/conftest.py:280-285 | true exactly when a logged call ran the command before any call without arguments; a call without arguments met before a match raises, so false means every logged call has a command and none ran it |
| FakeGitMock.FakeGit.Call | python/qisrc/test/conftest.py:287-299 | logs the call first; a call without arguments raises; an unknown or used-up command raises its lookup error and only initialises that command's index; otherwise the index advances, `raises=False` returns the answer, and a non-zero return code is an error |

## Left out

- Downloading, extracting, hashing and deleting files, subversion checkout/update, `ui` messages and exception message text: I/O. The archive checksum and `to_native_path` are parameters of `HandlePackage`.
- `DataBase.remove` deletes the package directory from disk, so it is I/O only.
- `Database.DataBase.Save` and `Database.DataBase.Values`: the order of `itervalues()` is unspecified, so the contract states what the list holds, not its order.
- `write_checksums` is reduced to the flag `checksumsWritten` returned by `Update`.
- `Database.DataBase.Update`: after a failed phase the contract states the error, not the partially updated map in between.
- Package objects are values here. Python's shared references between `remote_packages` and the database (aliasing) are not modelled.
- The feed parser (`qitoolchain.feed`), `QiPackage`/`SvnPackage` XML serialisation, `load_package_xml`, `reroot_paths` and `load_deps` are not part of this model. Their result enters as the `conflict` flag and the package fields.
- `qisys.sort.topological_sort` is not part of this model. It is the `Sorter` parameter, so nothing is claimed about its order.
- The worktree's `Toolchain` and `BuildWorkTree.get_build_project` are not part of this model. The toolchain is its package map, assumed to file each package under its own name as a package database does, and `get_build_project` returns the first project with the name.
- `Deps.GetSdkDirs` and `Deps.GetDepPackages`: their order is stated by separate lemmas (`GetSdkDirsKeepsOrder`, `GetDepPackagesKeepsOrder`): any two kept items keep their relative order. Stating it as equality with the filtered list would only repeat the function body.
- `dep_types=None` in `solve_deps` is not modelled: callers always pass the kinds.
- `XMLParser`: the handler arity check (`co_argcount != 2`) and the overridable hooks are not modelled. Handlers are a table of two behaviours (descend or inspect) instead of Python reflection. In the source, a child tagged `attributes`, `prologue`, `epilogue`, `post_parse_attributes` or `unknown_element` finds the built-in `_parse_*` hook of that name, whose argument count is not 2, so it raises `TypeError`. The model ignores such a child unless the handler table names its tag.
- `XmlParsing.XMLParser.Parse`: the order of the inspections is stated only when no child descends. When a child is parsed recursively, the contract states that every inspection below the root sees the root's tag, but not how the inspections of different depths interleave. The target's values are likewise stated only when no child descends. Otherwise the contract states only that its set of fields is unchanged, since nested roots bind their own attributes onto it.
- `qixml.read`, `qixml.write` and `raise_parse_error`'s message building: file I/O and text.
- `indent` and `dump_deps_to_xml` mutate an element tree in place. They are modelled on element values that return the new tree.
- Strings are sequences of characters. Python 2 `str.split`, `str.lower` and `int()` are modelled on ASCII only, without Unicode whitespace or digits.
- `FakeGit._call` stores every keyword argument in `calls` alongside the positional ones, and reads only `raises`. The model logs the positional arguments with the `raises` value; the other keyword arguments are not modelled.
- `FakeGitMock.FakeGit.GetResult` is split into two helper steps, `StartIndex` and `Serve`. This changes the structure, not the behaviour.
