# Build-system knowledge base and override rewriters, in Dafny

This project models the logic that keeps a poetry2nix-style knowledge base of
Python build systems up to date, plus the small rewriting scripts around it.
The knowledge base maps a package name to the build systems its source build
needs.

- **Detection** (`tools/find-build-systems.py`). Each package derivation is
  tested against a table of known build systems: a build system is detected
  when its derivation is a direct input of the package's derivation.
  Packages maintained by hand (`SKIP_ATTRS`) are skipped, and packages with
  nothing detected are dropped.
- **Merge** (`tools/find-build-systems.py`). A detection run is folded into
  the previous knowledge base. Keys are normalised (`normalize`), all lists
  under one normalised key are concatenated, and every list is put into
  canonical form (`merge_systems`): table entries (`{"buildSystem": ...}`)
  first, in order, then the distinct plain names that no table entry
  claims, ascending. Blocklisted names are removed and keys are sorted. The
  merge is meant to be strictly additive.
- **`overrides/sort_overrides.py`** sorts the override definitions between
  two marker lines of a Nix file. It cuts them into blocks at header lines.
- **`overrides/filter_setuptools.py`** removes `setuptools` and
  `setuptools-scm` from every list of the knowledge base.
- **The two pyproject hooks** pin dependencies to `version = "*"`.
  `hooks/pyproject-without-url-whl.py` does it for dependencies with a wheel
  URL, `pyproject-without-path.py` for dependencies with a `path`.

Python dictionaries are association lists in insertion order (`Dicts`).
Python's string order and `sorted` are `Lex`. A requirement is the tagged
union `Requirements.Req = Simple(name) | Conditional(buildSystem, extra)`.
Exceptions the scripts can raise are `Err` values of a `Result`.

Two facts about the code shape the model:

- `check_drv` (tools/find-build-systems.py:108-119) has no handler around
  `pynixutil.drvparse`, and `future.result()` (line 127) raises its
  exception again, so a derivation that fails to parse ends the run. The
  model receives each derivation already reduced to its set of input
  derivations.
- Table entries keep the order in which they were contributed, while plain
  names are sorted (tools/find-build-systems.py:138-141). So two merged runs
  give the same base in either order when at most one of them contributes
  table entries under any key. `KnowledgeBase.MergeOrderIrrelevant` proves
  the case of runs that hold only plain names, which is what detection
  produces.

## Model

| member | source | states |
|---|---|---|
| Names.CollapseSeparators | tools/find-build-systems.py:44 | replacing each run of `-`, `_`, `.` by one `-` leaves no `_` or `.`, never two adjacent `-`, an empty result only for empty input, and a leading `-` exactly when the input starts with a separator (that a run becomes one `-` rather than vanishing is Names.CollapseRun) |
| Names.Normalize | tools/find-build-systems.py:43-44 | a normalised name is a canonical key (no `_`, `.`, upper-case ASCII letter or `--`) and never longer than the name (which names share a key: Names.NormalizeRun, Names.NormalizeFoldsVariants) |
| Names.NormalizeFixesNormal | tools/find-build-systems.py:43-44 | a canonical key is its own normalisation |
| Names.NormalizeIdempotent | tools/find-build-systems.py:43-44 | normalising twice gives the same key as normalising once |
| Names.NormalizeKeepsLetters | tools/find-build-systems.py:43-44 | normalisation only rewrites separators and case: the other characters survive, lower-cased, in order |
| Names.NormalizeRun | tools/find-build-systems.py:43-44 | a run of separators normalises like a single `-`: it becomes a separator of the key rather than vanishing |
| Names.CollapseSameUpToCase | tools/find-build-systems.py:44 | collapsing keeps two names that differ only in letter case and in which separators they use at the same places equally related, with every separator now `-` |
| Names.NormalizeFoldsVariants | tools/find-build-systems.py:43-44 | names that differ only in letter case and in which separator they use at each place get the same key |
| Names.NormalizeExample | tools/find-build-systems.py:43-44 | `Foo_.Bar` and `foo-bar` get the same key |
| Names.CollapseRun | tools/find-build-systems.py:44 | any non-empty run of separators, wherever it sits, collapses to what a single `-` in its place collapses to |
| Discovery.CheckDrv | tools/find-build-systems.py:108-119 | a known system is reported exactly when its drv path is among the package's input drvs; the result follows the table's order and repeats no name |
| Discovery.NonEmpty | tools/find-build-systems.py:129-130 | the second pass keeps only entries with a non-empty list, in their order |
| Discovery.NonEmptyLookup | tools/find-build-systems.py:129-130 | per attribute, an empty list disappears and anything else is kept as it was |
| Discovery.FuturesLookup | tools/find-build-systems.py:122-127 | the futures comprehension keeps, for each attribute not skipped, the `check_drv` result of its last job in the stream |
| Discovery.SubmittedSkipsNothing | tools/find-build-systems.py:122-126 | no skipped attribute is submitted |
| Discovery.GetBuildSystems | tools/find-build-systems.py:121-130 | the result has distinct keys, no key from `SKIP_ATTRS` and no empty list |
| Discovery.GetBuildSystemsDetects | tools/find-build-systems.py:121-130 | an attribute is reported exactly when it is not skipped, occurs in the stream and its last derivation has a known build system among its inputs; it is reported with that `check_drv` result |
| Dicts.FromPairs | tools/find-build-systems.py:122-127 | a dictionary comprehension builds a dictionary without repeated keys; its keys are those of the pairs (Dicts.FromPairsKeys) and each is bound to the value of its last pair (Dicts.FromPairsLookup) |
| Dicts.FromPairsKeys | tools/find-build-systems.py:122-127 | the comprehension has exactly the keys of its pairs |
| Dicts.FromPairsLookup | tools/find-build-systems.py:122-127 | a dictionary comprehension binds each key to the value of its last pair |
| Dicts.Put | hooks/pyproject-without-url-whl.py:23 | `d[k] = v` binds `k` to `v`, leaves every other key's value alone, keeps an existing key in place and appends a new one |
| Dicts.Remove | hooks/pyproject-without-url-whl.py:24-25 | `d.pop(k, None)` removes `k`, leaves every other key's value alone, keeps the remaining keys in their order and changes nothing when `k` is absent |
| Requirements.Conditionals | tools/find-build-systems.py:138 | the table entries of a list, in their order |
| Requirements.SimpleNames | tools/find-build-systems.py:137 | the names of the plain-string entries |
| Requirements.Unshadowed | tools/find-build-systems.py:139-140 | the plain names that no table entry claims |
| Requirements.MergeSystems | tools/find-build-systems.py:136-141 | the canonical list starts with the table entries in input order, followed only by plain names, strictly ascending; a plain name is kept exactly when it occurs and no table entry claims it |
| Requirements.MergeSystemsIdempotent | tools/find-build-systems.py:136-141 | canonicalising a canonical list changes nothing |
| Requirements.MergeSystemsDeterminedBy | tools/find-build-systems.py:136-141 | the canonical list depends only on the table entries in order and on the set of unclaimed plain names |
| Requirements.MergeSystemsAbsorbs | tools/find-build-systems.py:136-141 | appending plain names that were already present and canonicalising again gives the same list |
| Requirements.MergeSystemsFlatten | tools/find-build-systems.py:136-141 | canonicalising, appending plain names and canonicalising again equals canonicalising once at the end |
| Requirements.MergeSystemsSwap | tools/find-build-systems.py:136-141 | two lists of plain names can be appended in either order |
| Lex.SortStrings | overrides/sort_overrides.py:53 | `sorted` returns an ascending permutation of its input |
| Lex.SortedPermutationsEqual | overrides/sort_overrides.py:53 | there is only one ascending permutation of a list |
| Lex.SortUnique | tools/find-build-systems.py:155 | `sorted(set(...))` holds exactly the elements of the input, strictly ascending |
| Lex.StrictlySortedEqual | tools/find-build-systems.py:141 | a strictly ascending list is determined by its elements |
| Lex.Without | tools/find-build-systems.py:155-156 | leaving out excluded keys keeps the order and drops exactly those keys |
| KnowledgeBase.Accumulate | tools/find-build-systems.py:145-150 | the `setdefault` loop creates exactly one key per name listed in the entries; what each key holds is KnowledgeBase.AccumulateCollects |
| KnowledgeBase.AccumulateCollects | tools/find-build-systems.py:145-150 | the `setdefault` loop has a key exactly when some entry has it, and holds the concatenation of that key's lists in entry order |
| KnowledgeBase.MergedKeys | tools/find-build-systems.py:155-156 | the output keys are strictly ascending and are the filed keys not in `BLOCKLIST` |
| KnowledgeBase.Merge | tools/find-build-systems.py:144-157 | output keys are strictly ascending, normalised and never blocklisted; a key is present exactly when it normalises some key of either input (even one with an empty list); its list is the canonical form of everything filed under it, previous entries first |
| KnowledgeBase.MergeLookup | tools/find-build-systems.py:144-157 | per key: nothing for a blocklisted or unseen name, otherwise the canonical form of what both inputs list under names with that normalisation |
| KnowledgeBase.MergeIsAdditive | tools/find-build-systems.py:146-156 | strict additivity: every table entry listed under a name that is not blocklisted survives under its normalised name, and every plain name survives unless a table entry for the same build system claims it |
| KnowledgeBase.MergeInventsNothing | tools/find-build-systems.py:144-157 | every requirement in the output was listed under a name with that normalisation |
| KnowledgeBase.MergeShadowsPlainName | tools/find-build-systems.py:136-157 | a table entry for a build system replaces the plain name under the same key, whichever input contributed either |
| KnowledgeBase.MergeIsFiled | tools/find-build-systems.py:144-157 | the output is already filed under its own keys |
| KnowledgeBase.MergeIdempotentOnFresh | tools/find-build-systems.py:144-157 | merging the same detection run (plain names only) a second time changes nothing |
| KnowledgeBase.MergeTwice | tools/find-build-systems.py:144-157 | merging a run of plain names into a merged knowledge base equals merging both runs at once |
| KnowledgeBase.MergeOrderIrrelevant | tools/find-build-systems.py:144-157 | two runs of plain names give the same knowledge base in either order |
| Pipeline.Update | tools/find-build-systems.py:160-178 | one run writes a knowledge base whose keys are canonical, not blocklisted and strictly ascending, and which keeps every non-blocklisted key of the previous base; what the lists hold is Pipeline.UpdateKeepsPrevious and Pipeline.UpdateRecordsDetections |
| Pipeline.UpdateKeepsPrevious | tools/find-build-systems.py:173-175 | a run never loses a requirement that an earlier generation recorded under a name that is not blocklisted, even when the package is skipped or undetected now |
| Pipeline.UpdateRecordsDetections | tools/find-build-systems.py:169-175 | every build system detected for a package is recorded under its normalised name, unless a table entry claims it |
| Pipeline.UpdateIdempotent | tools/find-build-systems.py:160-175 | running again over the same packages and table rewrites the same knowledge base |
| FilterSetuptools.WithoutSetuptools | overrides/filter_setuptools.py:9 | every `setuptools` and `setuptools-scm` name is removed; every other element keeps its multiplicity and order |
| FilterSetuptools.Filter | overrides/filter_setuptools.py:6-13 | the output keys are some of the input keys, in input order |
| FilterSetuptools.FilterLookup | overrides/filter_setuptools.py:7-13 | per key: a list loses the two names and its key disappears when nothing is left; any other value is copied unchanged |
| FilterSetuptools.FilterKeepsConditionals | overrides/filter_setuptools.py:8-11 | a table entry is never removed, even one whose `buildSystem` is `setuptools` |
| FilterSetuptools.WithoutSetuptoolsIdempotent | overrides/filter_setuptools.py:9 | filtering a filtered list changes nothing |
| FilterSetuptools.FilterIdempotent | overrides/filter_setuptools.py:6-13 | filtering the output again changes nothing |
| Text.Split | overrides/sort_overrides.py:11 | `split("\n")` yields at least one piece, and no piece holds the separator |
| Text.Join | overrides/sort_overrides.py:54-57 | `sep.join(xs)` starts with the first piece; joining the split pieces gives back the text (Text.JoinSplit), and splitting the join of a non-empty list of pieces without the separator gives back those pieces (Text.SplitJoin with Text.SplitEachOfPieces) |
| Text.JoinSplit | overrides/sort_overrides.py:57 | joining the pieces with the separator gives back the text |
| Text.KeepsSurroundingPieces | overrides/sort_overrides.py:56-57 | after one piece is replaced and the pieces are joined, splitting gives back the pieces around it unchanged |
| Text.ContainsIffOccurs | overrides/sort_overrides.py:15 | the substring test holds exactly when the pattern occurs at some position |
| Text.RStrip | overrides/sort_overrides.py:50 | `rstrip()` removes exactly the trailing white space |
| SortOverrides.FindFirst | overrides/sort_overrides.py:14-21 | the marker search finds the first line containing the marker, or reports that none does |
| SortOverrides.FindFirstIsFirst | overrides/sort_overrides.py:14-21 | the first line holding the marker is the one found |
| SortOverrides.NameRun | overrides/sort_overrides.py:35 | `[a-zA-Z0-9-]+` takes the longest run of name characters |
| SortOverrides.HeaderIffShape | overrides/sort_overrides.py:35 | a line starts a block exactly when it is eight spaces, an optional `# `, one or more name characters, then ` = ` |
| SortOverrides.BlocksAreTexts | overrides/sort_overrides.py:31-48 | the string blocks are the texts of the line groups, each line followed by a newline |
| SortOverrides.GroupsPartition | overrides/sort_overrides.py:31-48 | the blocks partition the region: none is empty, their lines concatenate to the region, every block after the first begins at a header and no header is inside a block |
| SortOverrides.PartitionUnique | overrides/sort_overrides.py:31-48 | a region has only one such partition |
| SortOverrides.GroupsAreThePartition | overrides/sort_overrides.py:31-48 | the script's blocks are that unique partition |
| SortOverrides.BlocksReproduceRegion | overrides/sort_overrides.py:31-48 | concatenating the blocks before stripping reproduces each region line followed by a newline |
| SortOverrides.SortedBlocks | overrides/sort_overrides.py:50-53 | the written blocks are ascending and a permutation of the stripped blocks, so their number is kept |
| SortOverrides.SortedBlocksUnique | overrides/sort_overrides.py:53 | any ascending arrangement of the stripped blocks is the one written |
| SortOverrides.SortNixDefinitions | overrides/sort_overrides.py:7-60 | `sort_nix_definitions` succeeds exactly when, among the lines of the content, the first end marker lies at least two lines after the first begin marker; its output is SortOverrides.SortKeepsOutside |
| SortOverrides.SortLines | overrides/sort_overrides.py:11-57 | on the lines of the file, the script succeeds exactly when the first end marker lies at least two lines after the first begin marker; the errors are SortOverrides.SortFailsWithoutBegin, SortFailsWithoutEnd and SortFailsOnEmptyRegion, the output SortOverrides.SortLinesSucceeds |
| SortOverrides.SortFailsWithoutBegin | overrides/sort_overrides.py:14-23 | "begin not found" exactly when no line contains the begin marker |
| SortOverrides.SortFailsWithoutEnd | overrides/sort_overrides.py:18-25 | "end not found" exactly when some line contains the begin marker and none contains the end marker |
| SortOverrides.SortFailsOnEmptyRegion | overrides/sort_overrides.py:27-29 | indexing the first line of the region fails exactly when the first end marker is not at least two lines after the first begin marker |
| SortOverrides.SortLinesSucceeds | overrides/sort_overrides.py:14-57 | otherwise the output is the lines through the first begin marker, the sorted region, and the lines from the first end marker on, joined by newlines |
| SortOverrides.SortKeepsOutside | overrides/sort_overrides.py:56-57 | read back as lines, the output keeps every line before `start` and from `stop` on unchanged around the lines of the sorted region |
| Documents.SetPathGet | pyproject-without-path.py:9-16 | after the dependency table is updated in place, the document holds the new table at its path |
| Documents.SetPathStored | pyproject-without-path.py:9-16 | putting back the value already at a path leaves the document as it was |
| Documents.SetPathFrame | pyproject-without-path.py:9-16 | the update leaves alone every path that branches off the updated one |
| Documents.SetPathKeepsKeys | pyproject-without-path.py:9-16 | walking down the updated path, every table passed on the way is a table before and after the update, with the same keys in the same order |
| WithoutUrlWhl.PinWheel | hooks/pyproject-without-url-whl.py:23-25 | a wheel dependency gets `version = "*"` and loses `url` and `develop`; every other field keeps its value and its place, an existing `version` stays where it was and a new one comes last |
| WithoutUrlWhl.RewriteDependency | hooks/pyproject-without-url-whl.py:19-25 | a dependency fails only when it is a table whose `url` is not a string; it changes exactly when it is a table whose `url` ends in `whl`, and is then pinned |
| WithoutUrlWhl.RewriteAll | hooks/pyproject-without-url-whl.py:18-25 | the loop succeeds exactly when every dependency does; the dependency names stay the same and each value is rewritten on its own |
| WithoutUrlWhl.Apply | hooks/pyproject-without-url-whl.py:13-25 | a document without `tool.poetry.dependencies` passes through unchanged; a non-table on the way to it is a `TypeError`, a dependencies value that is not a table an `AttributeError`; the hook succeeds exactly when the dependencies are missing or are a table whose every dependency rewrites |
| WithoutUrlWhl.ApplyRewritesEach | hooks/pyproject-without-url-whl.py:18-25 | after a successful run the dependency table is the rewritten one, with the same names |
| WithoutUrlWhl.ApplyFrame | hooks/pyproject-without-url-whl.py:13-25 | every path that branches off `tool.poetry.dependencies` holds what it held before |
| WithoutUrlWhl.ApplyKeepsKeyOrder | hooks/pyproject-without-url-whl.py:13-25 | the document, `tool` and `tool.poetry` keep their keys in the same order, so the printed file keeps its layout |
| WithoutUrlWhl.RewriteDependencyIdempotent | hooks/pyproject-without-url-whl.py:19-25 | a rewritten dependency is left alone by a second pass |
| WithoutUrlWhl.RewriteAllIdempotent | hooks/pyproject-without-url-whl.py:18-25 | a second pass over the rewritten dependencies changes nothing |
| WithoutUrlWhl.ApplyIdempotent | hooks/pyproject-without-url-whl.py:13-25 | running the hook on its own output changes nothing |
| WithoutPath.Unpin | pyproject-without-path.py:12-16 | a path dependency loses `path` and gets `version = '*'`; every other field keeps its value and its place, an existing `version` stays where it was and a new one comes last |
| WithoutPath.UnpinKeepsDistinct | pyproject-without-path.py:12-16 | removing `path` and setting `version` keeps a dependency table a dictionary: its keys stay distinct |
| WithoutPath.RewriteDependency | pyproject-without-path.py:10-16 | a dependency changes exactly when it is a table with a `path` key, and is then unpinned |
| WithoutPath.RewriteAll | pyproject-without-path.py:9-16 | the dependency names stay the same and each value is rewritten on its own |
| WithoutPath.Apply | pyproject-without-path.py:9-16 | a missing `tool.poetry.dependencies` is an error (unlike the wheel hook), and so is a non-table on the way; otherwise the script succeeds exactly when the dependencies are a table |
| WithoutPath.ApplyRewritesEach | pyproject-without-path.py:9-16 | when the dependencies are a table the script succeeds, and the new table is the rewritten one with the same names |
| WithoutPath.ApplyFrame | pyproject-without-path.py:9-16 | every path that branches off `tool.poetry.dependencies` holds what it held before |
| WithoutPath.ApplyKeepsKeyOrder | pyproject-without-path.py:9-16 | the document, `tool` and `tool.poetry` keep their keys in the same order, so the printed file keeps its layout |
| WithoutPath.RewriteDependencyIdempotent | pyproject-without-path.py:10-16 | a rewritten dependency is left alone by a second pass |
| WithoutPath.RewriteAllIdempotent | pyproject-without-path.py:9-16 | a second pass over the rewritten dependencies changes nothing |
| WithoutPath.ApplyIdempotent | pyproject-without-path.py:9-16 | running the script on its own output changes nothing |

## Left out

- `find_known_systems` and `yield_drvs` (tools/find-build-systems.py:47-104) run `nix-instantiate` and `nix-eval-jobs`. Their results are parameters: the table of known systems and the stream of (attribute, input drvs) jobs. The stream's error handling and non-zero exit status are not modelled.
- `pynixutil.drvparse` and reading the drv file (tools/find-build-systems.py:110-113) are a foreign parser. A derivation is only its set of input drv paths, so a parse failure, which ends the run in the code, has no counterpart.
- The `ThreadPoolExecutor` fan-out (tools/find-build-systems.py:121-127) is modelled as a plain map over the stream. Its result does not depend on scheduling.
- Reading and writing JSON, TOML and files is not modelled, nor the `argparse` interface. The model maps parsed values to parsed values. The previous knowledge base is an `Option`, `None` when the output file does not exist. This covers the hard-coded `default.nix` output of the sort script, its debug prints, the `fields_to_remove` warning of the wheel hook and the count printed by the filter.
- Names.Lower: lower-cases ASCII letters only. Python's `str.lower` also maps non-ASCII letters, and package attributes are ASCII.
- Requirements.Req: only strings and objects with a `buildSystem` string are modelled. An object without `buildSystem` raises `KeyError` in the code. Other JSON values are ignored by `merge_systems` and not modelled. The other fields of an object are kept as a `map<string, string>`, which loses their order (printed by `json.dump` at tools/find-build-systems.py:178) and any field value that is not a string.
- KnowledgeBase.Kb: every value of the knowledge base is a list. For a string value the loop at tools/find-build-systems.py:149 would append its characters one by one, and for an object its keys; neither is modelled.
- FilterSetuptools.Entry: a non-list value is kept verbatim as `Other`. A list's elements are requirements, as the knowledge base holds.
- Documents.Value: TOML and JSON values other than tables and strings are kept verbatim as `Atom`. tomlkit's formatting and comments are not modelled.
- The `$` alternative of the header pattern (overrides/sort_overrides.py:35) can never match, because a line has no newline and `$` must then be followed by ` = `. The model states the pattern without it and proves the remaining reading (`SortOverrides.HeaderIffShape`).
- An empty region (`lines_to_sort[0]` at overrides/sort_overrides.py:29) raises `IndexError`. The model reports it as `EmptyRegion`, including when the end marker comes before the begin marker.
- pkgs/poetry/update.py and vendor/update.py (network, `nix-prefetch-url`, `nix-build`, file copying), eval_markers.py (a wrapper over `packaging.markers`), generate.py, tools/auto_version.py (wall clock) and the test fixtures are not part of this model.
