# para-audit audit engine, modelled in Dafny

This project models the audit engine of `para`. `para` is a tool that enforces a
layout on a personal file tree. The tree has a home directory with four roots
(`projects`, `areas`, `resources`, `archive`). The directories one level below
a root are modules. Each module should hold a `README.md` and a `para.yaml`,
and the `para.yaml` should list its tags.

The engine scans the tree and reports typed violations. Each violation has a
severity level and maps to a proposed shell fix. On top of the scan sit two
reports: `audit` shows the violations up to a level and counts all of them,
and `propose_fixes` prints the fixes up to a level. The project also models
the helpers the engine relies on:

- the four-root taxonomy and the module enumeration;
- the post-order walker `visit_all`, which does not follow symbolic links;
- the lookups of `search.rs` (find a module or a root, list a root, search by
  tag or name, count tags);
- the extension histogram of `stats`.

## How it is modelled

The file system is an immutable tree (`Fs.Node`):

- A file carries what the YAML parser makes of it: a `Doc` or nothing.
- A directory carries its listing, in the order `read_dir` returns it.
- A symbolic link carries a snapshot of its target, or nothing when it
  dangles.

`is_dir`, `read_dir` and opening a file follow links (`Fs.Resolve`). The walker
never does. A path is a sequence of names. `Taxonomy.Tree` places the home
node at `parent + [home.name]`.

A panic of the source (`expect`/`unwrap` on a directory that cannot be listed)
becomes a `Result.Err` carrying the path that failed. Three things outside the
program become parameters:

- `strsim::jaro(a, b) > 0.96`, in `get_violations`, is `sim`.
- `jaro(name, s) > precision`, in `search_modules`, is `near`.
- `p.is_dir()`, asked when a `Delete` fix is printed, is `isDir`.

Files, one module each:

- `wrappers.dfy`: `Option` and `Result`.
- `fs.dfy`: the tree, `read_dir`, `is_dir`, and the walker `visit_all`.
- `taxonomy.dfy`: the root paths, the module enumeration and `read_yaml`.
- `violations.dfy`: `Violation`, `Fix`, `level`, `fix`, the rename and how a
  fix is printed.
- `rules.dfy`: the nine checks of `get_violations` and one lemma per rule.
- `reports.dfy`: `audit` and `propose_fixes`.
- `search.rs` lookups in `search.dfy`.
- `tally.dfy`: the `HashMap` counting used by `get_all_tags` and `stats`.
- `stats.dfy`: `stats`.

`get_violations` is `Rules.GetViolations`. It reads the home listing, the four
root listings, the module enumeration and the walk from home into a
`Rules.Scan`. `Rules.Checks` then concatenates the nine checks in the source's
order. The per-rule lemmas are stated over any scan. The lemmas about
clutter, disallowed files and renderability are also stated over the tree
itself.

### Behaviour of the code that is easy to misread

- The module-name pattern `[-, ,\.,A-Z]` is a character class. The commas
  written between its members are members too. So a name with a comma is
  flagged, yet the rename keeps the comma, and the proposed fix does not clear
  the violation (`Violations.RenameRepairsIffNoComma`).
- The oversized-module count is the number of callbacks of `visit_all` from the
  module. That includes the module itself, and it counts directories as well
  as files. A module with exactly 1000 entries below it therefore has count
  1001 and is reported (`Rules.OversizedMeansAtLeastMaxEntriesBelow`).
- `get_all_tags` returns a `Result` but never builds an `Err`. It can only
  fail by panicking in `get_module_paths` on a root that cannot be listed. The
  model returns `Err` there, as it does for every panic.

## Model

| member | source | states |
|---|---|---|
| Fs.Walk | src/lib.rs:42-51 | the start entry is handed over last, every visited path extends the start path, and the only visited entry at the start path's depth is the start entry |
| Fs.WalkVisitsExactlyTheSubtree | src/lib.rs:42-51 | an entry is visited iff it is reachable from the start along its path through real directories, so a symbolic link is visited but nothing beneath it |
| Fs.WalkVisitsEachPathOnce | src/lib.rs:42-51 | in a tree whose directories have uniquely named entries, no path is visited twice |
| Fs.WalkIsPostOrder | src/lib.rs:42-51 | every entry is visited after all entries beneath it, and the start entry comes last |
| Fs.FindChild | src/lib.rs:28 | `home.join(name)` finds nothing iff no entry has that name, and otherwise finds the first entry with that name |
| Taxonomy.RootPathsAreTheFourRoots | src/lib.rs:19-30 | there are four distinct root paths, and a path is a root path iff it is home extended by one of the four root names |
| Taxonomy.DirEntries | src/lib.rs:35-39 | the directories of a listing, as entries: an entry is kept iff it is a child that `is_dir` accepts; each kept entry lies one level below the listed directory; the order is fixed by the two lemmas below |
| Taxonomy.DirEntriesAppend | src/lib.rs:35-39 | the filter keeps the listing order of `read_dir`: filtering two runs of a listing gives the first run's directories, then the second's |
| Taxonomy.DirEntriesSingle | src/lib.rs:35-39 | a single listed entry is kept, as the entry at the directory's path plus its name, iff `is_dir` accepts it |
| Taxonomy.DirEntriesAtDistinctPaths | src/lib.rs:35-39 | a listing with distinct names gives modules at distinct paths |
| Taxonomy.ModulesAtDistinctPaths | src/lib.rs:32-40 | when no root lists two entries of the same name, the enumeration succeeds and no two modules share a path, across roots as well as within one |
| Taxonomy.FirstUnreadableRoot | src/lib.rs:35-37 | when some root cannot be listed, the enumeration stops at the first such root in root order |
| Taxonomy.ModulePathsAreRootDirectories | src/lib.rs:32-40 | the enumeration fails iff some root cannot be listed, and the error is a root path; otherwise the modules are exactly the directory children of the four roots |
| Taxonomy.ModuleInSomeRoot | src/lib.rs:32-40 | a module is an entry of the enumeration iff it is a directory entry of one of the four roots |
| Taxonomy.ModulesLieUnderRoots | src/lib.rs:32-40 | every module is a directory whose parent is one of the four root paths and whose path ends in its name |
| Taxonomy.ReadYaml | src/lib.rs:86-97 | with no `para.yaml` in the module there is no document; any document returned is the parse of a `para.yaml` entry that is, or links to, a file |
| Taxonomy.ReadYamlFindsParsedMetadata | src/lib.rs:86-97 | a `para.yaml` that resolves to a file that parses is exactly what is returned |
| Violations.Level | src/audit.rs:157-171 | the severity table: level 1 for clutter, empty modules and duplicates; level 2 for bad names and disallowed files; level 3 for missing files and oversized modules; level 4 for missing tags |
| Violations.FixOf | src/audit.rs:41-53 | which kinds of violation map to which kind of fix, iff for each fix kind, each payload carried unchanged |
| Violations.Rename | src/audit.rs:66-81 | the new module name has the same length; every `-`, space and `.` becomes `_`; upper-case letters are lowered; commas stay exactly where the old name had them; other characters are kept, so no `-`, space, `.` or upper-case letter is left |
| Violations.RenameRepairsIffNoComma | src/audit.rs:66-81 | the renamed name still matches the module-name pattern iff the old name contains a comma |
| Violations.RenameIsIdempotent | src/audit.rs:66-81 | a valid name is left unchanged, and renaming twice is the same as renaming once |
| Violations.RenameExample | src/audit.rs:66-81 | `My Project` becomes `my_project`; `a,b` is flagged and left unchanged |
| Violations.Render | src/audit.rs:55-98 | clutter moves into `projects/CLUTTER` under its own name; a bad name is renamed in the same parent; a missing file is touched inside its module; a delete is recursive exactly for directories; a tag edit opens `para.yaml`; duplicate and oversized modules print nothing |
| Rules.RootClutter | src/audit.rs:179-186 | only children of home whose name is not a root name are reported, and each such name is reported as often as it occurs in the home listing |
| Rules.RootClutterRule | src/audit.rs:179-186 | in the full rule set, each non-root name in home is reported as root clutter once per occurrence |
| Rules.RootClutterShape | src/audit.rs:179-186 | in the full rule set, only children of home that are not roots are reported as root clutter |
| Rules.StrayFiles | src/audit.rs:188-195 | within one root, a name is reported iff some entry with it is not a directory, and stray files and modules together account for every entry |
| Rules.RootStrays | src/audit.rs:188-195 | stray files of the four roots are module-dir clutter lying two levels below home |
| Rules.StrayFilesRule | src/audit.rs:188-195 | in a listing with distinct names, an entry is reported iff it is not a directory |
| Rules.StrayInOwnRoot | src/audit.rs:188-195 | clutter under root `k` is in the rule set iff root `k`'s own check reports it |
| Rules.StrayRule | src/audit.rs:188-195 | in the full rule set, an entry of a root with distinct names is module-dir clutter iff it is not a directory |
| Rules.ModuleIsDirectoryEntry | src/lib.rs:32-40 | an entry of root `k`'s listing is a module iff it is a directory |
| Rules.ClutterIsNonDirectory | src/audit.rs:188-195 | for a scanned tree, an entry of root `k`'s listing is reported as clutter iff it is not a directory |
| Rules.ModuleOrClutterRule | src/audit.rs:188-197 | every entry of a root with distinct names is a module or is reported as clutter, never both and never neither |
| Rules.NameCheck | src/audit.rs:197-204 | a path gets a name violation iff it is a module whose name contains a character of `[-, ,\.,A-Z]`; never more violations than modules, and no path twice when the modules lie at distinct paths |
| Rules.NameRule | src/audit.rs:197-204 | in the full rule set, the same iff holds for name violations |
| Rules.NameOnceInScan | src/audit.rs:200-203 | in the full rule set, when the modules lie at distinct paths, each bad module name is reported at most once |
| Rules.MissingFiles | src/audit.rs:206-233 | a file is reported missing for a module iff it is required and absent from the module's listing, each at most once |
| Rules.ModuleChecks | src/audit.rs:212-238 | for one module: empty iff it has no entries; each missing required file; no tags iff its tag list is empty, reported at its `para.yaml`; no duplicates |
| Rules.ModulesChecks | src/audit.rs:212-238 | over all modules, each of the three per-module violations is reported iff some module has the defect, and no violation twice when the modules lie at distinct paths |
| Rules.ModuleContentOnceInScan | src/audit.rs:212-238 | in the full rule set, when the modules lie at distinct paths, each empty-module, missing-file and missing-tags violation is reported at most once |
| Rules.ModuleContentRules | src/audit.rs:212-238 | in the full rule set, an empty module, a missing required file and a missing tag list are each reported exactly for the modules they describe |
| Rules.Disallowed | src/audit.rs:240-262 | a path is reported iff a visited entry there has a name on the denylist; when the visited paths are distinct, no path is reported twice |
| Rules.DisallowedInScan | src/audit.rs:240-262 | in the full rule set, a disallowed-file path is reported iff the walk visits an entry there whose name is on the denylist |
| Rules.DisallowedOnceInScan | src/audit.rs:254-262 | when the walk visits each path once, each disallowed path is reported at most once |
| Rules.DisallowedRule | src/audit.rs:240-262 | for a tree, a path is reported iff it lies under home and reaches an entry named on the denylist; with uniquely named directories, at most once |
| Rules.PairsWith | src/audit.rs:265-279 | one pass of the inner loop: a module is paired with exactly those of the scanned modules that lie at a different path and have a similar name |
| Rules.Duplicates | src/audit.rs:264-280 | a pair is reported iff two modules at positions i < j have different paths and similar names, earlier first; never a path with itself |
| Rules.DuplicateRule | src/audit.rs:264-280 | in the full rule set, the same iff holds for duplicate pairs |
| Rules.TooMany | src/audit.rs:282-293 | a module is reported with count c iff the walk from it makes c callbacks and c exceeds 1000, and no module twice when the modules lie at distinct paths |
| Rules.TooManyOnceInScan | src/audit.rs:282-293 | in the full rule set, when the modules lie at distinct paths, each oversized-module violation is reported at most once |
| Rules.OncePerModule | src/audit.rs:197-293 | in a tree whose roots list no name twice, each bad-name, empty-module, missing-file, missing-tags and oversized-module violation is reported at most once |
| Rules.TooManyRule | src/audit.rs:282-293 | in the full rule set, the same iff holds for oversized modules |
| Rules.OversizedMeansAtLeastMaxEntriesBelow | src/audit.rs:282-293 | a module is oversized iff it is a real directory with at least 1000 entries below it |
| Rules.ScanOf | src/audit.rs:173-197 | the scan reads four root listings and the same module enumeration as `get_module_paths` |
| Rules.GetViolations | src/audit.rs:173-295 | the scan fails iff home or one of the roots cannot be listed; home is tried first, then the roots in root order, and the failure names the first of these that cannot be listed |
| Rules.ViolationsAreRenderable | src/audit.rs:55-81 | every violation found has a fix whose path has a file name, so the `unwrap` on that name never fails |
| Reports.Shown | src/audit.rs:301-305 | a violation is shown iff its level is at most the threshold, as often as it was found |
| Reports.ShownLevels | src/audit.rs:301-305 | level 4 and above show everything, level 0 shows nothing, and filtering at a lower level after a higher one is filtering at the lower one |
| Reports.Audit | src/audit.rs:297-314 | fails where the scan fails; otherwise shows exactly the violations at or below the level, each as often as it was found, and counts all of them, whatever the level |
| Reports.AuditLevelOne | src/audit.rs:297-305 | the level-1 audit shows exactly the clutter, empty-module and duplicate-module violations |
| Reports.Commands | src/audit.rs:100-107 | a command is printed iff it is the rendering of some violation's fix; never more commands than violations, and as many as violations when none is fixless; the order and repetitions are fixed by the two lemmas below |
| Reports.CommandsAppend | src/audit.rs:100-107 | commands are printed in the order of their violations: two runs of violations print the first run's commands, then the second's |
| Reports.CommandsSingle | src/audit.rs:100-107 | one violation prints exactly the rendering of its own fix, once, or nothing when it has no fix |
| Reports.ProposeFixes | src/audit.rs:100-107 | fails where the scan fails; otherwise a command is printed iff it renders the fix of a violation at or below the level |
| Reports.FixesUpTo | src/audit.rs:100-107 | the printed commands are exactly the renderings of the fixes of the violations at or below the level |
| Reports.FixesOfShown | src/audit.rs:100-107 | the fixes of the shown violations are those of the violations at or below the level, and equally those of the shown violations other than duplicates and oversized modules |
| Reports.FixesFollowAudit | src/audit.rs:100-107 | the fixes printed at a level are exactly the fixes of the violations the audit at that level shows, other than duplicates and oversized modules |
| Search.Strings | src/search.rs:83-88 | each string occurs as often as the corresponding string item; non-string items are dropped |
| Search.StringsAppend | src/search.rs:83-88 | the filter keeps order: the strings of a concatenation are the concatenation of the strings |
| Search.ModuleTags | src/search.rs:80-92 | no tags without a parsable `para.yaml` or without a `tags` sequence; otherwise each string of the sequence, as often as it occurs |
| Search.FirstNamed | src/search.rs:24-30 | nothing iff no entry has the name; otherwise the first entry with the name |
| Search.FindModule | src/search.rs:24-30 | fails where the enumeration fails; otherwise finds nothing iff no module has the name, and otherwise the first module with that name |
| Search.FirstEndingAt | src/search.rs:35-37 | the position of the first path ending in the name, or the length of the list when none does |
| Search.FirstEndingIn | src/search.rs:32-38 | nothing iff no path ends in the name; otherwise the first listed path ending in it, as `find` returns |
| Search.FindRoot | src/search.rs:32-38 | finds a root iff the name is a root name, and then it is home extended by that name |
| Search.Under | src/search.rs:56-58 | keeps exactly the paths whose parent is the given directory |
| Search.UnderAppend | src/search.rs:56-58 | the parent filter keeps order: it distributes over concatenation |
| Search.ListRootedModules | src/search.rs:40-60 | an invalid-root error iff the name is not a root; otherwise fails where the enumeration fails, or lists exactly the modules whose parent is that root |
| Search.ListRootedModulesIsOneRoot | src/search.rs:40-60 | listing root `k` gives exactly root `k`'s module directories, in listing order |
| Search.Tagged | src/search.rs:62-78 | keeps exactly the modules whose tag list contains the tag verbatim |
| Search.TaggedAppend | src/search.rs:64-75 | the tag filter keeps module order: filtering a concatenation is concatenating the filtered parts |
| Search.TaggedSingle | src/search.rs:64-75 | a single module is kept iff it carries the tag; with `Search.TaggedAppend` this fixes the filter's result, order included |
| Search.SearchByTag | src/search.rs:62-78 | fails where the enumeration fails; otherwise exactly the modules whose tag list contains the tag |
| Search.SearchByTagInRootOrder | src/search.rs:62-78 | on a tree whose roots can be listed, the tagged modules come root by root in root order, each root's in listing order |
| Search.NameHits | src/search.rs:11-19 | keeps exactly the modules not already found whose name is near the search string or contains it |
| Search.SearchModules | src/search.rs:7-22 | the tag matches come first, the name matches after them are not tag matches, and a module is in the result iff it carries the tag or its name matches |
| Search.AllTagsOccurrences | src/search.rs:94-105 | a tag occurs in the concatenated tag lists as often as in all modules' tag lists together |
| Search.GetAllTags | src/search.rs:94-105 | fails only where the enumeration fails; otherwise one entry per tag, with the tag's total number of occurrences, and a tag has an entry iff it occurs |
| Tally.Bump | src/search.rs:98-101 | one `and_modify`/`or_insert` adds one to the bumped key's count, leaves every other count alone and keeps the keys distinct |
| Tally.Count | src/search.rs:94-104 | one entry per distinct key, each counting the key's occurrences |
| Tally.CountEntries | src/search.rs:94-104 | every entry of the count map carries its key's number of occurrences, which is positive |
| Tally.CountRows | src/audit.rs:321-336 | an entry is in the count map iff it pairs an occurring key with its number of occurrences |
| Tally.AtLeast | src/audit.rs:338-341 | keeps exactly the entries whose count is at least the minimum |
| Tally.Insert | src/audit.rs:342 | inserting into a descending list keeps it descending and adds exactly the one entry |
| Tally.SortDescending | src/audit.rs:342 | the result is ordered by descending count and is a permutation of the input |
| Tally.SortedRows | src/audit.rs:342 | sorting keeps exactly the entries it was given |
| Tally.DistinctKeysOnce | src/audit.rs:321-336 | a map with distinct keys holds no entry twice |
| Tally.DistinctKeysOfFewer | src/audit.rs:338-342 | filtering and sorting a map with distinct keys keep its keys distinct |
| Stats.LastDot | src/audit.rs:328 | the position of the last period, or nothing iff the name has none |
| Stats.Extension | src/audit.rs:328-331 | an extension exists iff the name is not `..` and has a period after its first character; it is the period-free text after a period |
| Stats.ExtensionOfJoin | src/audit.rs:328-331 | a non-empty stem, a period and a period-free extension give back that extension |
| Stats.ExtensionExamples | src/audit.rs:328-331 | `archive.tar.gz` has extension `gz`; a dot file such as `.bashrc` has none |
| Stats.FileKeys | src/audit.rs:322-336 | a key is collected iff some visited entry is, or links to, a file with that extension key |
| Stats.CollectCount | src/audit.rs:322-336 | a key is collected once per entry that has it |
| Stats.FileKeysCount | src/audit.rs:322-336 | each extension key is collected exactly as many times as there are visited files with that key |
| Stats.Stats | src/audit.rs:316-346 | the total counts every entry under home, home included; rows are in descending count order with one row per extension; a row is shown iff its count is the positive number of visited files with that extension and reaches the minimum |

## Left out

- Real I/O is not modelled. The tree is a value: no `read_dir` errors beyond
  "cannot be listed", no races, no permissions. The `PARA_HOME` lookup is
  replaced by the `Tree` value.
- Directories inside the walk and inside modules are always listable. The
  source panics on an unreadable module or walk directory. Such a tree cannot
  be expressed here, so those panics are not modelled.
- A `read_dir` item that is an error is not modelled: every listed entry can be
  read. In the source, such an item is skipped by `flatten()` in the clutter
  checks (src/audit.rs:180, 190) and by `filter_map(ok)` in the module listing
  (src/audit.rs:216). `get_module_paths` (src/lib.rs:37) and `visit_all`
  (src/lib.rs:45) call `unwrap()` on it instead and panic.
- Names are plain strings. Non-UTF-8 names, on which the source's
  `to_str().unwrap()` panics, are not modelled.
- Jaro similarity and its float thresholds are the parameters `sim` and `near`,
  because they are a float computation in a foreign library.
- YAML parsing (`serde_yaml`) is not modelled. A file carries its parse result,
  and only the `tags` sequence is kept.
- Colouring, the `Display` text of violations, the `mv`/`touch`/`rm`/`vim`
  spelling of fixes, `print_modules`, `eprint_modules` and `print_count` are
  left out. A fix is a `Command` value. The summary line of `audit` is its
  total count.
- Lower-casing covers ASCII only. Unicode `to_lowercase` is a table-driven
  library routine.
- The `u32`/`u64` counters of `stats`, `get_all_tags` and the oversized-module
  count are unbounded naturals. The tree sizes that would overflow them are
  unrealistic.
- `HashMap` iteration order is unspecified in the source. The count maps are
  association lists, and no contract mentions their order.
- Symbolic-link cycles cannot be built with an immutable tree. Link targets are
  finite snapshots.
- `launch.rs`, `layout.rs` and the command-line front end are not part of this
  model: they spawn processes and change the file system.
- Reports.ProposeFixes: states which commands are printed, not their order or
  repetitions. Its result is `Reports.Commands` of `Reports.Shown`.
  `Reports.CommandsAppend` and `Reports.CommandsSingle` fix the order and
  repetitions of `Commands`, and `Reports.Shown` states the multiset of the
  shown violations. No single contract joins the two into one statement
  about `propose_fixes`.
- Reports.FixesUpTo: like `Reports.ProposeFixes`, states which commands are
  produced, not their order or repetitions.
- Reports.Audit: states which violations are shown, how often, and the total,
  but not their order. The order is that of `Reports.Shown`.
- Rules.Duplicates: states which pairs are reported, not how often. A pair could
  repeat only if the enumeration listed the same module twice, and a real
  directory cannot.
- Search.SearchModules: states the tag matches come first and what the result
  contains. It does not state the order of the name matches.
- Search.NameHits: states which name matches are kept, not their order.
- Search.GetAllTags: states the counts, not the order of the entries. The source
  order is that of a `HashMap`.
