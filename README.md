# Composer resolver core, modelled in Dafny

This project models four pieces of an early version of Composer, the PHP
dependency manager, and proves properties of them.

- **Default policy** (`default_policy.dfy`, module `DefaultPolicy`). This is
  how the dependency solver ranks candidate packages. It covers:
  - which packages may replace an installed one (`findUpdatePackages`);
  - the three-way comparator `compareByPriorityPreferInstalled` and the
    name-only `replaces` test;
  - the `selectPreferedPackages` pipeline, which groups literals by package
    name with installed ones in front, sorts each group, prunes it to the
    newest version and then to its installed literals plus the leading run
    of equal repository priority, concatenates the groups and sorts the
    result again.
- **Rule** (`rule.dfy`, module `Rules`). This is the solver's clause record:
  - the literals are sorted by id;
  - two watch slots start on the first two ids;
  - the record carries enable/weak flags, a type and a fingerprint of the
    sorted ids;
  - it also has `equals`, `isAssertion`, the watch accessors and the printed
    form `(a|b|...)`.
- **Download manager** (`download_manager.dfy`, module `Downloads`). This is a
  table from installation type to downloader. It covers:
  - the choice between a package's dist archive and its source checkout;
  - the lookup of the downloader for an installed package, with its two
    error cases;
  - the choice between updating in place and removing then re-downloading.

  Calls into downloaders and the filesystem are recorded as events, in call
  order.
- **Memory package** (`memory_package.dfy`, module `Packages`). This is the
  mutable package record that the other parts read. It has plain setters
  and getters and a `getType` that falls back to `library`.

Supporting files:

- `common.dfy` holds PHP's nullable values, its truthiness of strings, and
  thrown exceptions as result values.
- `sequences.dfy` holds subsequences, reversal, and PHP's `usort`.
  - `usort` is modelled as an insertion sort over an array.
  - It always yields a permutation.
  - It yields a sorted list whenever the comparator is a consistent order
    on the elements.
- `literals.dfy` holds the frozen view of a package that the pool hands to
  the resolver, and literals as (signed id, package) pairs.

Some things the source takes from code that is not part of this model
become parameters:

- The version order is a rank function on version strings, so it is an
  arbitrary total preorder.
- The pool is two functions: the candidates for a name, and the priority of
  a repository.
- The md5 fingerprint of a rule is an uninterpreted function of the id list.
- A literal's printed form is an uninterpreted function.

## Model

| member | source | states |
|---|---|---|
| DefaultPolicy.AllowUninstall | Classes/DependencyResolver/DefaultPolicy.php:24-27 | Uninstalling is always allowed. |
| DefaultPolicy.AllowDowngrade | Classes/DependencyResolver/DefaultPolicy.php:29-32 | Downgrading is always allowed. |
| DefaultPolicy.VersionCompare | Classes/DependencyResolver/DefaultPolicy.php:34-40 | A package with the same version as `b` satisfies exactly `==`, `>=` and `<=` against it. A strict relation (`>`, `<`, `!=`) holds only between different versions. |
| DefaultPolicy.GetPriority | Classes/DependencyResolver/DefaultPolicy.php:66-69 | The priority the pool gives the package's repository. |
| DefaultPolicy.FindUpdatePackages | Classes/DependencyResolver/DefaultPolicy.php:42-58 | Downgrades are always allowed, so the result is exactly the `whatProvides` candidates for the package's name, in pool order, minus the package itself. It is an order-preserving subsequence of the candidates, whatever `allowAll` is. |
| DefaultPolicy.Without | Classes/DependencyResolver/DefaultPolicy.php:52-54 | Something is in the filtered candidate list iff it is a candidate other than the package. |
| DefaultPolicy.WithoutIsSubsequence | Classes/DependencyResolver/DefaultPolicy.php:46-55 | The filtered candidates keep pool order. |
| DefaultPolicy.ReplacesName | Classes/DependencyResolver/DefaultPolicy.php:163-172 | True iff some replace link targets the name. |
| DefaultPolicy.Replaces | Classes/DependencyResolver/DefaultPolicy.php:161-173 | `source` replaces `target` iff one of its replace links has `target`'s name as its target. Version constraints play no part. |
| DefaultPolicy.FrozenReplaces | Classes/DependencyResolver/DefaultPolicy.php:161-173 | For a pool package frozen from an in-memory package, `replaces` holds iff one of the links `getReplaces` returns targets the other package's name. |
| DefaultPolicy.CompareByPriorityPreferInstalled | Classes/DependencyResolver/DefaultPolicy.php:118-149 | Always -1, 0 or 1, and 0 only for the same repository and the same id. Same repository, replaces considered: 1 if a replaces b, else -1 if b replaces a. Same repository otherwise: 0 iff the ids are equal, -1 iff a's id is smaller. Different repositories: -1 if a is installed, else 1 if b is installed, else -1 iff a's repository priority is higher. |
| DefaultPolicy.SameRepositoryOrderIsById | Classes/DependencyResolver/DefaultPolicy.php:132-137 | Within one repository with replaces ignored, the comparator is antisymmetric and its "before" relation is transitive. |
| DefaultPolicy.CrossRepositoryTiesAreInconsistent | Classes/DependencyResolver/DefaultPolicy.php:140-148 | Across repositories, two non-installed packages of equal priority each compare as 1 against the other. Two installed ones each compare as -1 against the other. |
| DefaultPolicy.GroupLiteralsByNamePreferInstalled | Classes/DependencyResolver/DefaultPolicy.php:98-116 | The name list is `FirstSeenNames` of the input: the names in the order of their first literal. The dictionary maps exactly the input names. Each name's list is its installed literals in reverse input order, then its other literals in input order. |
| DefaultPolicy.GroupedUpToStep | Classes/DependencyResolver/DefaultPolicy.php:101-113 | One loop step keeps that invariant. A new name gets an empty list. An installed literal is put in front of its list, and any other literal is appended. |
| DefaultPolicy.FirstSeenNamesAppend | Classes/DependencyResolver/DefaultPolicy.php:104-106 | One more literal appends its name to the name list iff no earlier literal had that name. |
| DefaultPolicy.FirstSeenNamesListsEachOnce | Classes/DependencyResolver/DefaultPolicy.php:98-116 | The name list holds every input name exactly once. |
| DefaultPolicy.GroupStep | Classes/DependencyResolver/DefaultPolicy.php:108-112 | One more literal changes only its own name's group. It is prepended if installed and appended otherwise. |
| DefaultPolicy.GroupMultiset | Classes/DependencyResolver/DefaultPolicy.php:98-116 | A group holds exactly the input literals with its name. |
| DefaultPolicy.GroupingIsPartition | Classes/DependencyResolver/DefaultPolicy.php:98-116 | Concatenating the groups of all names gives a permutation of the input. Grouping loses no literal and duplicates none. |
| DefaultPolicy.GroupingIsGrouped | Classes/DependencyResolver/DefaultPolicy.php:98-116 | Every group is non-empty and holds exactly the literals of its name. |
| DefaultPolicy.InNamesAdd | Classes/DependencyResolver/DefaultPolicy.php:88 | Adding a name to the merged selection adds exactly the literals of that name. |
| DefaultPolicy.MergeExact | Classes/DependencyResolver/DefaultPolicy.php:88 | `array_merge` of groups that each hold exactly their name's literals holds exactly the input literals with those names. |
| DefaultPolicy.MergeWithin | Classes/DependencyResolver/DefaultPolicy.php:88 | `array_merge` of groups that each hold some of their name's literals holds only input literals. |
| DefaultPolicy.MergeMember | Classes/DependencyResolver/DefaultPolicy.php:88 | Everything in the merge comes from one of the groups. |
| DefaultPolicy.MergeContains | Classes/DependencyResolver/DefaultPolicy.php:88 | Everything in a group is in the merge. |
| DefaultPolicy.SortGroups | Classes/DependencyResolver/DefaultPolicy.php:75-80 | Sorting each group with replaces ignored turns each group into a permutation of itself. The grouping invariant is kept. |
| DefaultPolicy.MaxRankIsMaximum | Classes/DependencyResolver/DefaultPolicy.php:175-193 | The newest version rank of a non-empty list bounds every literal's rank, and some literal attains it. |
| DefaultPolicy.MaxRankOfSameLiterals | Classes/DependencyResolver/DefaultPolicy.php:175-193 | Lists with the same literals have the same newest version. |
| DefaultPolicy.AtVersionMember | Classes/DependencyResolver/DefaultPolicy.php:184-189 | A literal is kept at a version iff it is an input literal of that version. |
| DefaultPolicy.AtVersionIsSubsequence | Classes/DependencyResolver/DefaultPolicy.php:184-189 | The literals at one version keep input order. |
| DefaultPolicy.BestVersionStep | Classes/DependencyResolver/DefaultPolicy.php:184-189 | A newer literal restarts the best list, an equal one is appended, and an older one is skipped. This matches the newest-version literals of the longer prefix. |
| DefaultPolicy.AtVersionCount | Classes/DependencyResolver/DefaultPolicy.php:184-189 | Each literal occurs among those at a version as often as in the input when it has that version, and never otherwise. |
| DefaultPolicy.BestVersionIgnoresOrder | Classes/DependencyResolver/DefaultPolicy.php:175-193 | Two orderings of the same literals have the same newest-version literals, up to order. |
| DefaultPolicy.PruneToBestVersion | Classes/DependencyResolver/DefaultPolicy.php:175-193 | On a non-empty list, the result is a non-empty order-preserving subsequence. It holds exactly the literals whose version equals the newest version. |
| DefaultPolicy.OpenPriorityAt | Classes/DependencyResolver/DefaultPolicy.php:232-234 | The priority the scan records is that of the first non-installed literal. |
| DefaultPolicy.OpenPriorityWitness | Classes/DependencyResolver/DefaultPolicy.php:232-234 | When some literal is not installed, the recorded priority is the priority of a non-installed literal. |
| DefaultPolicy.OpenBefore | Classes/DependencyResolver/DefaultPolicy.php:232-237 | A non-installed literal whose priority differs from the recorded one has a non-installed literal before it. |
| DefaultPolicy.PruneToHighestPriorityOrInstalled | Classes/DependencyResolver/DefaultPolicy.php:218-244 | The result is a prefix of the input, so it keeps every installed literal before the stop point. Every kept non-installed literal has the first non-installed literal's priority. The scan stops only at a non-installed literal of another priority. A non-empty input gives a non-empty result. |
| DefaultPolicy.PrunedGroupIsKept | Classes/DependencyResolver/DefaultPolicy.php:82-86 | What the two prunings keep of a group is non-empty, and each literal in it has the newest version of its name. Its non-installed literals share one priority. When the name has a newest literal that is not installed, at least one kept literal is not installed. When all the newest non-installed literals of the name share one priority, every newest literal of the name is kept. |
| DefaultPolicy.PrunedGroupKeepsOpen | Classes/DependencyResolver/DefaultPolicy.php:224-241 | When the name has a newest literal that is not installed, at least one kept literal is not installed. The first non-installed literal sets the priority and is then kept. |
| DefaultPolicy.UniformGroupKeepsNewest | Classes/DependencyResolver/DefaultPolicy.php:224-241 | When the newest non-installed literals of the name share one priority, the scan never stops early and keeps all newest literals. |
| DefaultPolicy.NewestOfGroup | Classes/DependencyResolver/DefaultPolicy.php:175-193 | A literal the best-version pruning keeps is an input literal of the group's name with the newest version of that name. |
| DefaultPolicy.PruneGroup | Classes/DependencyResolver/DefaultPolicy.php:83-85 | Pruning one group to its best version, then to priority-or-installed, keeps a non-empty part of it, all of the newest version. The kept non-installed literals share one priority. When the name has a newest literal that is not installed, at least one kept literal is not installed. When the newest non-installed literals all share one priority, all newest literals are kept. |
| DefaultPolicy.PruneGroups | Classes/DependencyResolver/DefaultPolicy.php:82-86 | Every name's group is replaced by what `PruneGroup` keeps of it. That is non-empty and of the newest version, with one priority among the non-installed literals. It holds a non-installed literal when the name has a newest one, and every newest literal when those share one priority. |
| DefaultPolicy.MergedSelection | Classes/DependencyResolver/DefaultPolicy.php:88 | Merging the pruned groups gives only input literals. There is at least one literal per input name, each of the newest version of its name. |
| DefaultPolicy.MergedFromOwnGroup | Classes/DependencyResolver/DefaultPolicy.php:88 | A merged literal comes from the group of its own name. |
| DefaultPolicy.MergedPriorities | Classes/DependencyResolver/DefaultPolicy.php:82-88 | After the merge, non-installed literals of one name share a priority. A name with a newest non-installed literal has some non-installed literal in the merge. A newest literal whose name's newest non-installed literals share one priority is in the merge. |
| DefaultPolicy.SelectPreferedPackages | Classes/DependencyResolver/DefaultPolicy.php:71-96 | The selection holds only input literals, with no more copies than the input has. Every input package name keeps at least one literal. Every selected literal has the newest version of its name. Selected non-installed literals of one name share a priority. A name with a newest literal that is not installed has a selected literal that is not installed. When a name's newest non-installed literals all share one priority, all of its newest literals are selected. |
| Rules.CompareLiteralsById | Classes/DependencyResolver/Rule.php:192-198 | 0 iff the ids are equal, negative iff a's id is smaller, positive iff it is larger. |
| Rules.CompareByIdIsTotalPreorder | Classes/DependencyResolver/Rule.php:192-198 | Comparing by id is a consistent order on any list of literals. |
| Rules.SortedLiteralsHaveSameIds | Classes/DependencyResolver/Rule.php:34-51 | Two id-sorted permutations of the same literals have the same id list. |
| Rules.SortedPermutationsEqual | Classes/DependencyResolver/Rule.php:34-37 | Two ascending integer lists with the same elements are equal. |
| Rules.IdsPermutation | Classes/DependencyResolver/Rule.php:49-51 | Permuting literals permutes their ids. |
| Rules.SortedLiterals | Classes/DependencyResolver/Rule.php:35-45 | Sorting by id keeps the length and gives ascending ids. The first two ids belong to input literals, and the first is the smallest. |
| Sequences.USort | Classes/DependencyResolver/Rule.php:34-35 | PHP's `usort` always yields a permutation of its input. It yields a sorted list when the comparator is a total preorder on the elements, as comparing literals by id is. |
| Rules.Rule.constructor | Classes/DependencyResolver/Rule.php:32-52 | The stored literals are a permutation of the argument, of the same length, ascending by id. `watch1` is the first id or 0, `watch2` the second id or 0; both are ids of argument literals when present, and `watch1` is the smallest id. The new rule is enabled, not weak, of type -1, with no id. Its fingerprint is a function of the sorted id list. |
| Rules.Rule.GetHash | Classes/DependencyResolver/Rule.php:54-57 | Returns the fingerprint fixed at construction. |
| Rules.Rule.SetId | Classes/DependencyResolver/Rule.php:59-67 | `getId` returns the id just set. |
| Rules.Rule.Equals | Classes/DependencyResolver/Rule.php:77-94 | As written: true iff the fingerprints are equal and the literal counts are equal. The disabled flag is ignored, and the element loop never returns false. |
| Rules.ElementTestNeverHolds | Classes/DependencyResolver/Rule.php:87-91 | The element test compares PHP's boolean `!id` identically with an integer id, so it never holds. |
| Rules.Rule.EqualsById | Classes/DependencyResolver/Rule.php:77-94 | Corrected comparison: true iff the fingerprints are equal and the id lists are equal position by position. |
| Rules.PermutedRulesAreEqual | Classes/DependencyResolver/Rule.php:32-94 | Rules built from two orderings of the same literals are equal under both `Equals` and `EqualsById`. |
| Rules.EqualsIgnoresIds | Classes/DependencyResolver/Rule.php:77-94 | Two one-literal rules with different ids and colliding fingerprints: `Equals` accepts them and `EqualsById` rejects them. |
| Rules.Rule.SetType | Classes/DependencyResolver/Rule.php:96-104 | `getType` returns the type just set. |
| Rules.Rule.Disable | Classes/DependencyResolver/Rule.php:106-109 | Afterwards the rule is disabled and not enabled. |
| Rules.Rule.Enable | Classes/DependencyResolver/Rule.php:111-114 | Afterwards the rule is enabled and not disabled. |
| Rules.Rule.IsEnabled | Classes/DependencyResolver/Rule.php:116-124 | Always the negation of `isDisabled`. |
| Rules.Rule.SetWeak | Classes/DependencyResolver/Rule.php:126-134 | `isWeak` returns the value just set. |
| Rules.Rule.GetLiterals | Classes/DependencyResolver/Rule.php:136-139 | Returns the stored literal list, which the constructor made the argument's permutation sorted by id. |
| Rules.Rule.IsAssertion | Classes/DependencyResolver/Rule.php:141-144 | True iff the rule has exactly one literal. |
| Rules.Rule.GetNext | Classes/DependencyResolver/Rule.php:146-153 | `next1` when the literal's id is `watch1`, `next2` otherwise. |
| Rules.Rule.GetOtherWatch | Classes/DependencyResolver/Rule.php:155-162 | `watch2` when the literal's id is `watch1`, `watch1` otherwise. |
| Rules.Rule.ToString | Classes/DependencyResolver/Rule.php:169-183 | The printed form is `disabled(` or `(`, then the literals joined by `|`, then `)`. |
| Rules.RuleTextForm | Classes/DependencyResolver/Rule.php:169-183 | The printed form starts with `disabled(` iff the rule is disabled, and always ends with `)`. |
| Rules.JoinRenderedStep | Classes/DependencyResolver/Rule.php:173-178 | Each further literal adds `|` and its printed form, except that the first adds no separator. |
| Downloads.DownloadManager.constructor | Classes/Downloader/DownloadManager.php:33-36 | Stores the source preference, false when none is given, and starts with no downloaders. |
| Downloads.DownloadManager.SetPreferSource | Classes/Downloader/DownloadManager.php:43-46 | Stores the source preference. |
| Downloads.DownloadManager.SetDownloader | Classes/Downloader/DownloadManager.php:54-57 | Afterwards `getDownloader` of that type returns the new downloader. Every other type's lookup is unchanged. |
| Downloads.DownloadManager.GetDownloader | Classes/Downloader/DownloadManager.php:68-75 | Succeeds iff a downloader is registered under the type, with a null type read as the empty key, and returns it. Otherwise it fails with an invalid-argument error. |
| Downloads.DownloadManager.GetDownloaderForInstalledPackage | Classes/Downloader/DownloadManager.php:88-110 | Installation source neither `dist` nor `source`: invalid-argument error. `dist` or `source`: succeeds iff a downloader is registered for the dist type or source type respectively and reports that same installation source. A registered downloader of the other kind gives a logic error, and an unregistered type an invalid-argument error. A returned downloader is the one registered under the dist type (installed from dist) or the source type (installed from source), and its installation source is the package's. |
| Downloads.SelectInstallationSource | Classes/Downloader/DownloadManager.php:127-135 | The choice is `dist` when a dist type is set and not (source preferred and a source type set). Otherwise it is `source` when a source type is set. It is none iff neither type is set, where a type counts as set when it is non-null, non-empty and not `"0"`. A chosen source always has its type set in that sense. |
| Downloads.DownloadManager.Download | Classes/Downloader/DownloadManager.php:121-142 | The preference argument, when not null, overrides the manager's. Neither type set (non-null, non-empty and not `"0"`): invalid-argument error, with the package and the event log unchanged. Otherwise the chosen source is stored on the package and the directory is ensured. Then either the lookup's error is returned, or the downloader's download is called with the package and directory. |
| Downloads.DownloadManager.Update | Classes/Downloader/DownloadManager.php:153-173 | A failed lookup for the installed package returns its error and changes nothing. Equal types under the installed package's source: the target takes that installation source, and the downloader's update is called. Otherwise the installed package is removed first. Then the target is downloaded with source preferred iff the installed package came from source. With neither target type set that fails with an invalid-argument error after the remove alone. Otherwise the directory is ensured and either the lookup's error is returned or the download is called. |
| Downloads.ComparedTypes | Classes/Downloader/DownloadManager.php:158-164 | The dist types of both packages when the installed one came from dist, their source types otherwise. |
| Downloads.DownloadManager.Remove | Classes/Downloader/DownloadManager.php:181-185 | Calls the remove of the downloader found for the installed package, or returns the lookup's error and does nothing. |
| Packages.MemoryPackage.constructor | Classes/Package/MemoryPackage.php:41-65 | Stores name, version and pretty version, which the getters return unchanged. There is no type, so the type reads `library`. There is no installation data, and all link lists, extra, binaries and autoload start empty. |
| Packages.MemoryPackage.GetVersion | Classes/Package/MemoryPackage.php:280-283 | The normalized version given to the constructor. |
| Packages.MemoryPackage.GetPrettyVersion | Classes/Package/MemoryPackage.php:288-291 | The pretty version given to the constructor. |
| Packages.MemoryPackage.GetType | Classes/Package/MemoryPackage.php:78-81 | The stored type when it is truthy, `library` when it is null or falsy, and never falsy itself. |
| Packages.MemoryPackage.SetType | Classes/Package/MemoryPackage.php:70-81 | A truthy type makes `getType` return it. A null or falsy one makes it return `library`. |
| Packages.MemoryPackage.SetTargetDir | Classes/Package/MemoryPackage.php:86-97 | Round-trips through `getTargetDir`. |
| Packages.MemoryPackage.SetExtra | Classes/Package/MemoryPackage.php:102-113 | Round-trips through `getExtra`. |
| Packages.MemoryPackage.SetBinaries | Classes/Package/MemoryPackage.php:118-129 | Round-trips through `getBinaries`. |
| Packages.MemoryPackage.SetInstallationSource | Classes/Package/MemoryPackage.php:134-145 | Round-trips through `getInstallationSource`, and no other field changes. |
| Packages.MemoryPackage.SetSourceType | Classes/Package/MemoryPackage.php:150-161 | Round-trips through `getSourceType`, and no other field changes. |
| Packages.MemoryPackage.SetDistType | Classes/Package/MemoryPackage.php:198-209 | Round-trips through `getDistType`, and no other field changes. |
| Packages.MemoryPackage.SetRequires | Classes/Package/MemoryPackage.php:316-327 | Round-trips through `getRequires`. |
| Packages.MemoryPackage.SetConflicts | Classes/Package/MemoryPackage.php:334-345 | Round-trips through `getConflicts`. |
| Packages.MemoryPackage.SetProvides | Classes/Package/MemoryPackage.php:352-363 | Round-trips through `getProvides`. |
| Packages.MemoryPackage.SetReplaces | Classes/Package/MemoryPackage.php:370-381 | Round-trips through `getReplaces`, which the policy's `replaces` reads. |
| Packages.MemoryPackage.SetRecommends | Classes/Package/MemoryPackage.php:388-399 | Round-trips through `getRecommends`. |
| Packages.MemoryPackage.SetSuggests | Classes/Package/MemoryPackage.php:406-417 | Round-trips through `getSuggests`. |
| Packages.MemoryPackage.SetAutoload | Classes/Package/MemoryPackage.php:514-525 | Round-trips through `getAutoload`. |

## Left out

- DefaultPolicy.SelectPreferedPackages: on an empty input the PHP code calls `array_merge` with no arguments, which yields null; the model yields the empty list.
- DefaultPolicy.SelectPreferedPackages: the final cross-package `usort` is specified only as a permutation. Across repositories of equal priority the comparator puts each package after the other, so there is no order to be sorted by, and which permutation PHP's sort picks is not modelled.
- DefaultPolicy.SortGroups: the same holds for the per-group sort. Groups may mix repositories, so it is specified only as a permutation of each group.
- DefaultPolicy.SelectPreferedPackages: the selection is not stated to reach the highest priority. The per-group sort does put installed literals first and the others by descending priority, so PHP keeps the newest non-installed literals of the highest priority; the model states only that the kept non-installed literals of a name share one priority.
- DefaultPolicy.PruneToBestVersion: requires a non-empty list. The PHP code reads the first element unguarded, and its only caller passes non-empty groups.
- `versionCompare` is a rank function on version strings. The version-constraint classes and semver parsing are not part of this model.
- `installable` (always true) and `selectNewestPackages` (unused by the policy) are not modelled.
- Package identity (`!==` in `findUpdatePackages`) is value inequality of frozen packages. Pool ids are unique, so distinct pool packages are distinct values.
- Rules.Rule.constructor: the fingerprint is an uninterpreted function of the sorted id list. md5, its truncation to five hex digits and the comma-joined text are not modelled.
- Rules.Rule.constructor: each rule is given its fingerprint function as an argument. One and the same function is meant for every rule, as the PHP code uses one hash, but the model does not enforce that.
- The rule's `reasonData` is not modelled, since it is opaque data the rule only stores.
- A literal's own printed form is a function parameter of `ToString`. The literal class is not part of this model.
- The downloaders' `download`, `update` and `remove` bodies and `Util\Filesystem::ensureDirectoryExists` are foreign I/O. They are recorded as events.
- A downloader is reduced to a name and its `getInstallationSource()` value.
- Exception message texts are not modelled, only the exception kind.
- PHP array-key casting other than null to the empty key (such as numeric strings to integers) is not modelled. It does not change which keys collide among strings.
- MemoryPackage's source/dist URLs, references and checksum, repositories, license, release date, keywords, authors, description and homepage are plain setter/getter pairs that nothing in this core reads.
- The base package class (name, id, repository, printed form) is not part of this model. The pool's view of a package is a value holding the fields the policy reads.
- The solver, rule set, pool, transaction builder, repository manager, VCS drivers, installers and archive downloaders are not part of this model.

## Findings

| source | as written | input that shows it | evidently intended | confidence | as-written member | corrected member |
|---|---|---|---|---|---|---|
| Classes/DependencyResolver/Rule.php:88 | `!` binds tighter than `===`, so the loop compares the boolean `!id` identically with an integer id. That never holds, and `equals` ignores the literals once fingerprints and counts agree. | Two one-literal rules with ids -596 and -617. The md5 digests of "-596" and "-617" both start with `7a7e3`, so the fingerprints collide. `equals` returns true. | Return false as soon as two literals at the same position have different ids. | not executed | Rules.EqualsIgnoresIds | Rules.Rule.EqualsById |
