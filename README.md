# Pub plugin of the dependency scanner: relation graph, scope filter and row builder

This project models the core of the `Pub` (Flutter/Dart) plugin of FOSSLight Dependency Scanner.
That core has three parts:

- **Dependency-tree parsing** (`parse_pub_deps_file`). It reads the `packages` array produced by
  `flutter pub deps --json` and builds `relation_tree` in two passes.
  - Pass one groups the bare dependency names of each entry under `name(version)`. It also records
    `name → version` and the root entry's bare name.
  - Pass two rewrites every bare name `d` into `d(version)`.
- **The scope listing** (`parse_no_dev_command_file`). It reads the text of
  `flutter pub deps --no-dev -s compact`. From every line it takes the first capture of `-\s(\S+)\s`
  into `total_dep_list`, then removes duplicates.
- **The catalog pass** (`parse_oss_information`). It walks the license/metadata catalog and keeps the
  in-scope packages. For each one it records a purl (package URL) and emits one 10-column row.
  The rows are classified `root package` / `direct` / `transitive` and carry the package's resolved
  dependency list.

## Layout

- `common.dfy`, module `Common`: `Option`, `NoDup`, the identity key `Key(name, version) = name(version)`.
- `relation_tree.dfy`, module `RelationTree`: the specification of both passes.
  - A Python dict's insertion order decides which keys pass two has rewritten when it stops, so the
    tree is a `Graph` of edges plus key order.
- `scope_filter.dfy`, module `ScopeFilter`: `str.split('\n')`, the regular expression written out as a
  leftmost-match scan, and de-duplication.
- `oss_information.dfy`, module `OssInformation`: one record's processing (`Process`), the whole
  loop (`Rows`, `Writes`, `Apply`, `FirstRaise`) and the lemmas about them.
- `deps_file.dfy`, module `DepsFile`: the trimming of output lines before the first `{`.
- `pub.dfy`, module `PubPlugin`: class `Pub` with the instance fields `relationTree`, `treeOrder`,
  `totalDepList`, `purlDict`, `packageName` and `directDep`. Its methods contain the source's loops,
  and each method's postcondition ties the new state to the specification functions above.

## Behaviour of the code worth knowing

- The `try` of line 112 encloses the whole catalog loop. So the first exception ends the loop, and
  the rows built before it are kept (`FirstRaise`, `RowsOfQualifyingRecords`).
- The `KeyError` of line 97 for a dependency name without a version is caught at line 101. Keys
  already rewritten stay rewritten, and the failing key and all later keys keep their bare names
  (`Pass2`, `Pass2Effect`).
- The homepage fallback of lines 121-125 tests `is None`. An empty-string `homepage` is kept, and
  only JSON `null` falls back to `repository` (`ProcessSpec`, `Homepage`).
- Line 85 stores the root's bare name, and line 149 compares it with `name(version)`. So a row is
  commented `root package` only when the two strings happen to be equal, which cannot happen for a
  name without `(` (`NoRootCommentForPlainNames`).
- The re-check of scope at lines 147-148 repeats the test of line 117, and nothing changes in between,
  so it can never fire. The model leaves it out.

## Model

| member | source | states |
|---|---|---|
| `RelationTree.AddEntry` | src/fosslight_dependency/package_manager/Pub.py:87-92 | one entry keeps the tree well formed (no duplicate keys, key order and key set agree) and only appends to the key order |
| `RelationTree.AddEntryEdges` | src/fosslight_dependency/package_manager/Pub.py:87-92 | an entry creates its key only when it has dependencies, appends its names under its own key and leaves every other key as it was |
| `RelationTree.Pass1` | src/fosslight_dependency/package_manager/Pub.py:83-92 | pass one keeps the tree well formed, and the old key order is a prefix of the new one |
| `RelationTree.Pass1Keys` | src/fosslight_dependency/package_manager/Pub.py:87-92 | after pass one a key exists iff it existed before or some entry with a non-empty dependency list has that `name(version)` |
| `RelationTree.Pass1Edges` | src/fosslight_dependency/package_manager/Pub.py:89-92 | a key's list after pass one is its earlier list followed by the dependency names of all entries with that key, concatenated in entry order |
| `RelationTree.DepsOfAbsent` | src/fosslight_dependency/package_manager/Pub.py:87-92 | a key that pass one never creates collected no names |
| `RelationTree.NameIndex` | src/fosslight_dependency/package_manager/Pub.py:86 | `name_version_dict` after pass one, the last version written per name; characterised by `NameIndexLastWins` |
| `RelationTree.RootName` | src/fosslight_dependency/package_manager/Pub.py:84-85 | `package_name` after pass one, the bare name of the last `root` entry; characterised by `RootNameAt` and `RootNameLastRoot` |
| `RelationTree.Pass1Resolvable` | src/fosslight_dependency/package_manager/Pub.py:83-92 | from an empty tree, when every dependency name is some entry's name, each list is exactly the collected names and all of them resolve |
| `RelationTree.NameIndexLastWins` | src/fosslight_dependency/package_manager/Pub.py:86 | `name_version_dict` holds exactly the names seen, each with the version of the last entry of that name |
| `RelationTree.LastRoot` | src/fosslight_dependency/package_manager/Pub.py:84-85 | the position of the last `root` entry: that entry is a root and no later one is |
| `RelationTree.RootNameAt` | src/fosslight_dependency/package_manager/Pub.py:84-85 | `package_name` after pass one is the name at the last root position, or its earlier value when there is no root |
| `RelationTree.RootNameLastRoot` | src/fosslight_dependency/package_manager/Pub.py:84-85 | `package_name` becomes the bare name of the last `root` entry, and is unchanged when there is none |
| `RelationTree.Resolve` | src/fosslight_dependency/package_manager/Pub.py:95-98 | a list resolves iff every name has a version; then the result has the same length and element i is `d(version of d)` |
| `RelationTree.FirstUnresolved` | src/fosslight_dependency/package_manager/Pub.py:94-97 | the position in key order of the first key whose list does not resolve: every earlier key resolves, that key does not |
| `RelationTree.Pass2` | src/fosslight_dependency/package_manager/Pub.py:94-102 | pass two keeps the tree well formed and keeps its key order and key set |
| `RelationTree.Pass2At` | src/fosslight_dependency/package_manager/Pub.py:94-102 | after pass two the key at each position holds its resolved list when it lies before the first unresolvable key, and its old list otherwise |
| `RelationTree.Pass2Effect` | src/fosslight_dependency/package_manager/Pub.py:94-102 | a key before the failing one is rewritten elementwise to `d(version)`, with length and order kept; the failing key and all later keys keep their bare names |
| `RelationTree.RewriteStep` | src/fosslight_dependency/package_manager/Pub.py:94-100 | a resolvable key met by the second loop lies before the first unresolvable key, and rewriting it advances the loop state by one position |
| `RelationTree.RewriteStop` | src/fosslight_dependency/package_manager/Pub.py:97-101 | a key met by the second loop whose list does not resolve is the first unresolvable key |
| `RelationTree.Pass2Positions` | src/fosslight_dependency/package_manager/Pub.py:94-102 | a loop state that has reached the first unresolvable key (or the end) is the tree pass two yields |
| `RelationTree.ParsedFromEmpty` | src/fosslight_dependency/package_manager/Pub.py:80-102 | a whole parse from an empty tree with all names known: one key per entry with dependencies, each holding the resolved concatenation of that key's dependency names |
| `ScopeFilter.SplitLines` | src/fosslight_dependency/package_manager/Pub.py:172 | `split('\n')` gives at least one piece and no piece holds a newline |
| `ScopeFilter.JoinSplit` | src/fosslight_dependency/package_manager/Pub.py:172 | joining the pieces with newlines gives the text back |
| `ScopeFilter.SplitJoin` | src/fosslight_dependency/package_manager/Pub.py:172 | splitting the join of newline-free lines gives the lines back |
| `ScopeFilter.IsSpace` | src/fosslight_dependency/package_manager/Pub.py:173 | the character class `\s` of a `str` pattern, that is the characters `str.isspace` accepts; `RunEnd` and `MatchesAt` are built on it |
| `ScopeFilter.RunEnd` | src/fosslight_dependency/package_manager/Pub.py:173 | the greedy `\S+` run from j ends at the first whitespace character or at the end of the line |
| `ScopeFilter.ScanFrom` | src/fosslight_dependency/package_manager/Pub.py:173-174 | the leftmost-match search of `re.findall` from a start position; characterised by `ScanFromSpec` against the match predicate `MatchesAt` |
| `ScopeFilter.FirstCapture` | src/fosslight_dependency/package_manager/Pub.py:173-174 | the first element of `re.findall(r'\-\s(\S+)\s', line)` when there is one; characterised by `ScanFromSpec` at position 0 |
| `ScopeFilter.ScanFromSpec` | src/fosslight_dependency/package_manager/Pub.py:173-174 | the scan yields None iff `-\s(\S+)\s` matches at no start position; otherwise it yields the capture at the leftmost matching start |
| `ScopeFilter.LineCapture` | src/fosslight_dependency/package_manager/Pub.py:173-175 | a line contributes exactly its first capture, and nothing when the pattern does not match |
| `ScopeFilter.Captures` | src/fosslight_dependency/package_manager/Pub.py:172-175 | the lines yield at most one name each |
| `ScopeFilter.CapturesMembers` | src/fosslight_dependency/package_manager/Pub.py:172-175 | a name is collected iff it is the first capture of some line |
| `ScopeFilter.Dedup` | src/fosslight_dependency/package_manager/Pub.py:176 | `list(set(xs))` has no duplicates and the same elements as `xs` |
| `OssInformation.Homepage` | src/fosslight_dependency/package_manager/Pub.py:121-125 | the homepage column: `homepage`, else `repository` when `homepage` is null, else the empty string, and a raise when a key it reads is missing; its use in a row is stated by `ProcessSpec` |
| `OssInformation.Comment` | src/fosslight_dependency/package_manager/Pub.py:144-159 | the comment column: empty without classification, `root package` when the stored root name equals the key, else `direct`/`transitive` from `isDirectDependency`, and a raise when that key is missing; stated by `ProcessSpec` |
| `OssInformation.Process` | src/fosslight_dependency/package_manager/Pub.py:116-161 | one pass of the loop body as skip, raise (with or without the purl write) or emitted row; characterised by `ProcessSpec` and `ProcessKinds` |
| `OssInformation.ProcessSpec` | src/fosslight_dependency/package_manager/Pub.py:115-161 | one record: skipped iff its name is present and out of scope; raises iff its name or a key read later is missing; purl written iff line 128 is reached, with the key `name(version)` and the purl of its download location; the row's columns, homepage fallback, classification and dependency list |
| `OssInformation.ProcessKinds` | src/fosslight_dependency/package_manager/Pub.py:116-118 | a record that does not raise is skipped iff it is out of scope, and emits a row iff it is in scope |
| `OssInformation.FirstRaise` | src/fosslight_dependency/package_manager/Pub.py:112-115 | the position of the first record whose processing raises: no earlier record raises, that one does |
| `OssInformation.Rows` | src/fosslight_dependency/package_manager/Pub.py:112-163 | the sheet list: the rows emitted before the first raise; characterised by `RowsOfQualifyingRecords` |
| `OssInformation.Writes` | src/fosslight_dependency/package_manager/Pub.py:128 | the writes to `purl_dict` in execution order, up to and including a raising record's write; characterised by `WritesOfQualifyingRecords` |
| `OssInformation.Apply` | src/fosslight_dependency/package_manager/Pub.py:128 | after the writes, a key is present iff it was present before or some write has that key |
| `OssInformation.HandledQualifying` | src/fosslight_dependency/package_manager/Pub.py:112-118 | the records the loop handles are the in-scope records before the first raising record |
| `OssInformation.RowsOfHandled` | src/fosslight_dependency/package_manager/Pub.py:112-163 | the sheet has one row per handled record, in order, each that record's emitted row |
| `OssInformation.RowsOfQualifyingRecords` | src/fosslight_dependency/package_manager/Pub.py:112-163 | the rows are exactly one per in-scope record before the first raising record, in catalog order, each that record's emitted row |
| `OssInformation.RaisingWriteAt` | src/fosslight_dependency/package_manager/Pub.py:126-128 | the raising record contributes its purl write exactly when it got past line 128 |
| `OssInformation.WritesOfHandled` | src/fosslight_dependency/package_manager/Pub.py:126-128 | the purl writes are one per handled record, in order, followed by the raising record's write if any |
| `OssInformation.WritesOfQualifyingRecords` | src/fosslight_dependency/package_manager/Pub.py:126-128 | the purl writes are one per in-scope record before the first raise, in order, plus the raising record's write when it got past line 128 |
| `OssInformation.ApplyLastWriteWins` | src/fosslight_dependency/package_manager/Pub.py:128 | a key's final purl is the one from the last write to that key |
| `OssInformation.ApplyUntouched` | src/fosslight_dependency/package_manager/Pub.py:128 | a key that no write touches keeps its entry (or stays absent) |
| `DepsFile.TrimBeforeJson` | src/fosslight_dependency/package_manager/Pub.py:191-195 | None iff no line starts with `{`; otherwise the lines from the first line starting with `{` |
| `PubPlugin.Pub.constructor` | src/fosslight_dependency/package_manager/Pub.py:29-31 | a fresh plugin: empty tree, scope list and purl dictionary, empty root name, classification off |
| `PubPlugin.Pub.EnableDirectDependencies` | src/fosslight_dependency/package_manager/Pub.py:179 | the classification flag is switched on |
| `PubPlugin.Pub.ParsePubDepsFile` | src/fosslight_dependency/package_manager/Pub.py:80-102 | the tree becomes pass two (with pass one's name index) of pass one of the old tree; `package_name` becomes the last root's name; the tree stays well formed |
| `PubPlugin.Pub.CollectRelations` | src/fosslight_dependency/package_manager/Pub.py:83-92 | the first loop leaves the tree at `Pass1` of the old tree and returns `name_version_dict` |
| `PubPlugin.Pub.AddPackage` | src/fosslight_dependency/package_manager/Pub.py:87-92 | one entry's update of the tree is `AddEntry`, and the tree stays well formed |
| `PubPlugin.Pub.ResolveRelations` | src/fosslight_dependency/package_manager/Pub.py:94-102 | the second loop leaves the tree at `Pass2` of the old tree, stopping at the first key with an unknown name |
| `PubPlugin.Pub.ResolveDependencies` | src/fosslight_dependency/package_manager/Pub.py:96-98 | the loop over one key's names yields the resolved list, or None at the first name without a version |
| `PubPlugin.Pub.ParseNoDevCommandFile` | src/fosslight_dependency/package_manager/Pub.py:171-176 | `total_dep_list` has no duplicates, and its elements are the old elements plus the first capture of each line |
| `PubPlugin.Pub.ParseOssInformation` | src/fosslight_dependency/package_manager/Pub.py:104-163 | the returned sheet is `Rows` of the catalog, and `purl_dict` is the old dictionary after `Writes` |
| `PubPlugin.Pub.ProcessRecord` | src/fosslight_dependency/package_manager/Pub.py:116-161 | one loop body yields the outcome `Process` describes, and `purl_dict` changes by exactly that outcome's write |
| `PubPlugin.NoRootCommentForPlainNames` | src/fosslight_dependency/package_manager/Pub.py:85-150 | with names free of `(`, the bare root name never equals `name(version)`, so no row is commented `root package` |

## Left out

- `run_plugin` (lines 39-78) and `__del__` (lines 33-37) are left out. They are file-system checks,
  copying, `chdir`, the YAML manifest rewrite and the `flutter` subprocess calls.
- Most of `parse_direct_dependencies` (lines 178-235) is left out: the encoding fallback, file
  truncation and rewrite, and subprocess calls. Only the flag of line 179 (`EnableDirectDependencies`)
  and the line trim of lines 191-195 (`TrimBeforeJson`) are modelled.
- JSON decoding (`json.load`, `json.loads`) is left out. The methods take already-decoded entries
  and records.
- Decoded entries are always well formed: a tree entry missing `name`, `version`, `kind` or
  `dependencies`, or a missing `packages` key, which would raise and be caught at line 101, is not
  modelled.
- Catalog records are modelled by key presence. A missing key raises, and `homepage`/`repository` may
  also be `null`. JSON values of other types (a `null` name, version or license, a non-boolean
  `isDirectDependency`) are not modelled.
- The license step of lines 131-137 is not modelled as I/O. It writes `tmp_license.txt`, runs the
  scanner and later removes the file (lines 166-167). The scanner is a function parameter
  (`Collaborators.scanLicense`), and an I/O failure of the temporary file is not modelled.
- `get_url_to_purl` is part of `_package_manager`, which is not part of this model. It is a function
  parameter (`Collaborators.toPurl`).
- Both collaborators, `Collaborators.toPurl` (`get_url_to_purl`, line 127) and
  `Collaborators.scanLicense` (`check_and_run_license_scanner`, line 135), are total functions: the
  model assumes neither raises. An exception in either would be caught at line 162 and end the loop,
  before the purl write for line 127 and after it for line 135. Those two loop exits are not modelled.
- `change_dep_to_purl` (line 164) and the base class `PackageManager` are not part of this model.
  `ParseOssInformation` returns the sheet as it stands before line 164.
- The constructor assumes the starting values of the fields set by `PackageManager.__init__`, which
  is not part of this model. The value of `const.PUB` is not part of this model either: it enters as
  the constructor's `manager` parameter.
- ParseNoDevCommandFile: states only the elements of `total_dep_list` and that they are distinct,
  not their order. `list(set(...))` orders them by string hashes, which this model does not fix.
- Logging calls are left out.
