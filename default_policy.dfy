/** The default package-preference policy of the dependency resolver: which
    candidates may replace an installed package, how two candidates compare,
    and which of several literals the solver should try first. */
module DefaultPolicy {
  import opened Common
  import opened Sequences
  import Packages
  import opened Literals

  /** The pool, as far as the policy consults it: the candidates for a name,
      in pool order, and the priority of each repository. */
  datatype Pool = Pool(whatProvides: string -> seq<Package>, repositoryPriority: nat -> int)

  /** The version order, given as a rank on normalized version strings: a
      higher rank is a newer version and equal ranks are equal versions (the
      version-constraint machinery itself is not part of this model). */
  type VersionRank = string -> int

  /** The relational operators a version comparison can be asked for. */
  datatype Operator = Equal | NotEqual | Greater | GreaterOrEqual | Less | LessOrEqual

  /** The installed map, keyed by package id. */
  type InstalledMap = set<nat>

  /** Installed packages may always be removed. */
  function AllowUninstall(): (r: bool)
    ensures r
  {
    true
  }

  /** An installed package may always be replaced by an older version. */
  function AllowDowngrade(): (r: bool)
    ensures r
  {
    true
  }

  /** Whether `a`'s version stands in relation `op` to `b`'s: a package with
      the same version as `b` matches exactly the non-strict relations, and a
      strict relation only holds between different versions. */
  function VersionCompare(rank: VersionRank, a: Package, b: Package, op: Operator): (r: bool)
    ensures a.version == b.version ==> (r <==> op == Equal || op == GreaterOrEqual || op == LessOrEqual)
    ensures r && (op == Greater || op == Less || op == NotEqual) ==> a.version != b.version
  {
    var x, y := rank(a.version), rank(b.version);
    match op
    case Equal => x == y
    case NotEqual => x != y
    case Greater => x > y
    case GreaterOrEqual => x >= y
    case Less => x < y
    case LessOrEqual => x <= y
  }

  /** The priority of the repository the package was registered from. */
  function GetPriority(pool: Pool, p: Package): (r: int)
    ensures r == pool.repositoryPriority(p.repository)
  {
    pool.repositoryPriority(p.repository)
  }

  /*************************** update candidates ***************************/

  /** `candidates` without `p`, in order. */
  function Without(candidates: seq<Package>, p: Package): (r: seq<Package>)
    ensures forall c :: c in r <==> c in candidates && c != p
  {
    if candidates == [] then []
    else
      var last := candidates[|candidates| - 1];
      assert candidates == candidates[..|candidates| - 1] + [last];
      Without(candidates[..|candidates| - 1], p) + (if last != p then [last] else [])
  }

  lemma {:induction false} WithoutIsSubsequence(candidates: seq<Package>, p: Package)
    ensures IsSubsequence(Without(candidates, p), candidates)
  {
    if candidates != [] {
      var init := candidates[..|candidates| - 1];
      var last := candidates[|candidates| - 1];
      WithoutIsSubsequence(init, p);
      assert init + [last] == candidates;
      if last != p {
        assert Without(candidates, p) == Without(init, p) + [last];
        SubsequenceExtend(Without(init, p), init, last);
      } else {
        assert Without(candidates, p) == Without(init, p);
        SubsequenceWeaken(Without(init, p), init, last);
      }
    }
  }

  /** The packages that may take `package`'s place: since downgrades are
      always allowed, every candidate for its name except itself, in pool
      order, whatever `allowAll` says. */
  method FindUpdatePackages(pool: Pool, rank: VersionRank, installed: InstalledMap, package: Package, allowAll: bool)
    returns (packages: seq<Package>)
    ensures packages == Without(pool.whatProvides(package.name), package)
    ensures IsSubsequence(packages, pool.whatProvides(package.name))
  {
    var candidates := pool.whatProvides(package.name);
    packages := [];
    var i := 0;
    while i < |candidates|
      invariant 0 <= i <= |candidates|
      invariant packages == Without(candidates[..i], package)
    {
      var candidate := candidates[i];
      assert candidates[..i + 1] == candidates[..i] + [candidate];
      // an older candidate is dropped only when neither allowAll nor downgrades permit it
      var skip := !allowAll && !AllowDowngrade() && VersionCompare(rank, package, candidate, Greater);
      if !skip && candidate != package {
        packages := packages + [candidate];
      }
      i := i + 1;
    }
    assert candidates[..i] == candidates;
    WithoutIsSubsequence(candidates, package);
  }

  /******************************* comparison *******************************/

  /** Whether `source` has a replace link to a name, version constraints
      ignored. */
  function ReplacesName(links: seq<Packages.Link>, name: string): (r: bool)
    ensures r <==> exists k :: 0 <= k < |links| && links[k].target == name
  {
    if links == [] then false
    else links[0].target == name || ReplacesName(links[1..], name)
  }

  /** Whether `source` replaces a package named like `target`. The link's
      version constraint is not consulted: only the target name matters. */
  function Replaces(source: Package, target: Package): (r: bool)
    ensures r <==> exists k :: 0 <= k < |source.replaceLinks| && source.replaceLinks[k].target == target.name
  {
    ReplacesName(source.replaceLinks, target.name)
  }

  /** Whether a pool package replaces another is decided by the replace links
      of the in-memory package it was frozen from. */
  lemma FrozenReplaces(p: Packages.MemoryPackage, id: nat, repository: nat, target: Package)
    ensures Replaces(Freeze(p, id, repository), target) <==>
      exists k :: 0 <= k < |p.GetReplaces()| && p.GetReplaces()[k].target == target.name
  {
  }

  /** The three-way comparator the policy sorts with (negative: `a` first). */
  function CompareByPriorityPreferInstalled(pool: Pool, installed: InstalledMap, a: Package, b: Package, ignoreReplace: bool): (r: int)
    ensures r == -1 || r == 0 || r == 1
    ensures r == 0 ==> a.repository == b.repository && a.id == b.id
    // same repository: the replaced package comes first, unless replaces are ignored
    ensures a.repository == b.repository && !ignoreReplace && Replaces(a, b) ==> r == 1
    ensures a.repository == b.repository && !ignoreReplace && !Replaces(a, b) && Replaces(b, a) ==> r == -1
    // same repository otherwise: ascending package id
    ensures a.repository == b.repository && (ignoreReplace || (!Replaces(a, b) && !Replaces(b, a))) ==>
      (r == 0 <==> a.id == b.id) && (r == -1 <==> a.id < b.id)
    // different repositories: installed first, then higher priority first
    ensures a.repository != b.repository && a.id in installed ==> r == -1
    ensures a.repository != b.repository && a.id !in installed && b.id in installed ==> r == 1
    ensures a.repository != b.repository && a.id !in installed && b.id !in installed ==>
      (r == -1 <==> GetPriority(pool, a) > GetPriority(pool, b))
  {
    if a.repository == b.repository then
      if !ignoreReplace && Replaces(a, b) then 1
      else if !ignoreReplace && Replaces(b, a) then -1
      else if a.id == b.id then 0
      else if a.id < b.id then -1
      else 1
    else if a.id in installed then -1
    else if b.id in installed then 1
    else if GetPriority(pool, a) > GetPriority(pool, b) then -1
    else 1
  }

  /** Within one repository, with replaces ignored, the comparator is a
      strict total order by package id. */
  lemma SameRepositoryOrderIsById(pool: Pool, installed: InstalledMap, a: Package, b: Package, c: Package)
    requires a.repository == b.repository == c.repository
    ensures CompareByPriorityPreferInstalled(pool, installed, a, b, true) == -CompareByPriorityPreferInstalled(pool, installed, b, a, true)
    ensures CompareByPriorityPreferInstalled(pool, installed, a, b, true) == -1 && CompareByPriorityPreferInstalled(pool, installed, b, c, true) == -1
      ==> CompareByPriorityPreferInstalled(pool, installed, a, c, true) == -1
  {
  }

  /** Across repositories the comparator is not an order: two non-installed
      packages of equal priority are each placed after the other, and two
      installed packages each before the other. */
  lemma CrossRepositoryTiesAreInconsistent(pool: Pool, installed: InstalledMap, a: Package, b: Package, ignoreReplace: bool)
    requires a.repository != b.repository
    ensures a.id !in installed && b.id !in installed && GetPriority(pool, a) == GetPriority(pool, b) ==>
      CompareByPriorityPreferInstalled(pool, installed, a, b, ignoreReplace) == 1 &&
      CompareByPriorityPreferInstalled(pool, installed, b, a, ignoreReplace) == 1
    ensures a.id in installed && b.id in installed ==>
      CompareByPriorityPreferInstalled(pool, installed, a, b, ignoreReplace) == -1 &&
      CompareByPriorityPreferInstalled(pool, installed, b, a, ignoreReplace) == -1
  {
  }

  /************************** literal selections ***************************/

  predicate IsInstalled(installed: InstalledMap, l: Literal)
  {
    l.package.id in installed
  }

  /** The literals about packages named `name`, in input order. */
  function WithName(lits: seq<Literal>, name: string): seq<Literal>
  {
    if lits == [] then []
    else
      var last := lits[|lits| - 1];
      WithName(lits[..|lits| - 1], name) + (if last.package.name == name then [last] else [])
  }

  /** The literals about packages named `name` that are installed (or not,
      as `isInstalled` says), in input order. */
  function Named(installed: InstalledMap, lits: seq<Literal>, name: string, isInstalled: bool): seq<Literal>
  {
    if lits == [] then []
    else
      var last := lits[|lits| - 1];
      Named(installed, lits[..|lits| - 1], name, isInstalled)
        + (if last.package.name == name && IsInstalled(installed, last) == isInstalled then [last] else [])
  }

  /** The literals whose package name is in `names`, in input order. */
  function InNames(lits: seq<Literal>, names: set<string>): seq<Literal>
  {
    if lits == [] then []
    else
      var last := lits[|lits| - 1];
      InNames(lits[..|lits| - 1], names) + (if last.package.name in names then [last] else [])
  }

  /** The package names of the literals. */
  function NameSet(lits: seq<Literal>): set<string>
  {
    if lits == [] then {} else NameSet(lits[..|lits| - 1]) + {lits[|lits| - 1].package.name}
  }

  lemma {:induction false} NameSetMember(lits: seq<Literal>, n: string)
    ensures n in NameSet(lits) <==> exists l :: l in lits && l.package.name == n
  {
    if lits != [] {
      var init := lits[..|lits| - 1];
      NameSetMember(init, n);
      assert lits == init + [lits[|lits| - 1]];
    }
  }

  lemma {:induction false} WithNameMember(lits: seq<Literal>, name: string, x: Literal)
    ensures x in WithName(lits, name) <==> x in lits && x.package.name == name
  {
    if lits != [] {
      var init := lits[..|lits| - 1];
      WithNameMember(init, name, x);
      assert lits == init + [lits[|lits| - 1]];
    }
  }

  lemma {:induction false} NamedMember(installed: InstalledMap, lits: seq<Literal>, name: string, isInstalled: bool, x: Literal)
    ensures x in Named(installed, lits, name, isInstalled) <==>
      x in lits && x.package.name == name && IsInstalled(installed, x) == isInstalled
  {
    if lits != [] {
      var init := lits[..|lits| - 1];
      NamedMember(installed, init, name, isInstalled, x);
      assert lits == init + [lits[|lits| - 1]];
    }
  }

  lemma {:induction false} NamedSplit(installed: InstalledMap, lits: seq<Literal>, name: string)
    ensures multiset(Named(installed, lits, name, true)) + multiset(Named(installed, lits, name, false))
         == multiset(WithName(lits, name))
  {
    if lits != [] {
      NamedSplit(installed, lits[..|lits| - 1], name);
    }
  }

  lemma {:induction false} InNamesAdd(lits: seq<Literal>, names: set<string>, name: string)
    requires name !in names
    ensures multiset(InNames(lits, names + {name})) == multiset(InNames(lits, names)) + multiset(WithName(lits, name))
  {
    if lits != [] {
      InNamesAdd(lits[..|lits| - 1], names, name);
    }
  }

  lemma {:induction false} InNamesNone(lits: seq<Literal>)
    ensures InNames(lits, {}) == []
  {
    if lits != [] {
      InNamesNone(lits[..|lits| - 1]);
    }
  }

  lemma {:induction false} InNamesAll(lits: seq<Literal>, names: set<string>)
    requires NameSet(lits) <= names
    ensures InNames(lits, names) == lits
  {
    if lits != [] {
      var init, last := lits[..|lits| - 1], lits[|lits| - 1];
      assert lits == init + [last];
      InNamesAll(init, names);
    }
  }

  /************************** grouping by name *****************************/

  /** The group of literals named `name`: installed ones first, each one
      put in front of the previous ones (so in reverse input order), then the
      others in input order. */
  function Group(installed: InstalledMap, lits: seq<Literal>, name: string): seq<Literal>
  {
    Reversed(Named(installed, lits, name, true)) + Named(installed, lits, name, false)
  }

  /** A group holds exactly the literals with its name. */
  lemma GroupMultiset(installed: InstalledMap, lits: seq<Literal>, name: string)
    ensures multiset(Group(installed, lits, name)) == multiset(WithName(lits, name))
  {
    ReversedMultiset(Named(installed, lits, name, true));
    NamedSplit(installed, lits, name);
  }

  /** How one more literal changes the groups: it is put in front of its
      group when installed and appended otherwise; other groups stay. */
  lemma GroupStep(installed: InstalledMap, prefix: seq<Literal>, literal: Literal, n: string)
    ensures n != literal.package.name ==> Group(installed, prefix + [literal], n) == Group(installed, prefix, n)
    ensures n == literal.package.name && IsInstalled(installed, literal) ==>
      Group(installed, prefix + [literal], n) == [literal] + Group(installed, prefix, n)
    ensures n == literal.package.name && !IsInstalled(installed, literal) ==>
      Group(installed, prefix + [literal], n) == Group(installed, prefix, n) + [literal]
  {
    var next := prefix + [literal];
    assert next[..|next| - 1] == prefix;
    var t, f := Named(installed, prefix, n, true), Named(installed, prefix, n, false);
    if n != literal.package.name {
      assert Named(installed, next, n, true) == t;
      assert Named(installed, next, n, false) == f;
    } else if IsInstalled(installed, literal) {
      assert Named(installed, next, n, true) == t + [literal];
      assert (t + [literal])[..|t|] == t;
      assert Named(installed, next, n, false) == f;
    } else {
      assert Named(installed, next, n, true) == t;
      assert Named(installed, next, n, false) == f + [literal];
    }
  }

  /** Every entry of `groups` is the group of its name in `lits`. */
  ghost predicate GroupsOf(installed: InstalledMap, lits: seq<Literal>, groups: map<string, seq<Literal>>)
  {
    forall n :: n in groups ==> groups[n] == Group(installed, lits, n)
  }

  /** `GroupStep` applied to every group of the dictionary. */
  lemma GroupsStep(installed: InstalledMap, prefix: seq<Literal>, literal: Literal, groups: map<string, seq<Literal>>)
    requires literal.package.name in groups && GroupsOf(installed, prefix, groups)
    ensures var name := literal.package.name;
      var g := if IsInstalled(installed, literal) then [literal] + groups[name] else groups[name] + [literal];
      GroupsOf(installed, prefix + [literal], groups[name := g])
  {
    forall n | n in groups
      ensures n != literal.package.name ==> groups[n] == Group(installed, prefix + [literal], n)
    {
      GroupStep(installed, prefix, literal, n);
    }
    GroupStep(installed, prefix, literal, literal.package.name);
  }

  /** A new name starts with an empty group. */
  lemma GroupsAddName(installed: InstalledMap, prefix: seq<Literal>, groups: map<string, seq<Literal>>, name: string)
    requires GroupsOf(installed, prefix, groups) && name !in NameSet(prefix)
    ensures GroupsOf(installed, prefix, groups[name := []])
  {
    GroupOfAbsentName(installed, prefix, name);
  }

  /** A name no literal has has an empty group. */
  lemma GroupOfAbsentName(installed: InstalledMap, lits: seq<Literal>, n: string)
    requires n !in NameSet(lits)
    ensures Group(installed, lits, n) == []
  {
    var t, f := Named(installed, lits, n, true), Named(installed, lits, n, false);
    NameSetMember(lits, n);
    if t != [] {
      NamedMember(installed, lits, n, true, t[0]);
    }
    if f != [] {
      NamedMember(installed, lits, n, false, f[0]);
    }
  }

  /** The elements of `names`. */
  function SetOf(names: seq<string>): set<string>
  {
    if names == [] then {} else SetOf(names[..|names| - 1]) + {names[|names| - 1]}
  }

  lemma {:induction false} SetOfMember(names: seq<string>, n: string)
    ensures n in SetOf(names) <==> n in names
  {
    if names != [] {
      var init := names[..|names| - 1];
      SetOfMember(init, n);
      assert names == init + [names[|names| - 1]];
    }
  }

  predicate Distinct(names: seq<string>)
  {
    forall a, b :: 0 <= a < b < |names| ==> names[a] != names[b]
  }

  lemma NameSetAppend(lits: seq<Literal>, l: Literal)
    ensures NameSet(lits + [l]) == NameSet(lits) + {l.package.name}
  {
    assert (lits + [l])[..|lits|] == lits;
  }

  lemma DistinctAppend(names: seq<string>, name: string)
    requires Distinct(names) && name !in SetOf(names)
    ensures Distinct(names + [name]) && SetOf(names + [name]) == SetOf(names) + {name}
  {
    SetOfMember(names, name);
    assert (names + [name])[..|names|] == names;
  }

  /** The package names of the literals, each once, in the order of their
      first literal. */
  function FirstSeenNames(lits: seq<Literal>): seq<string>
  {
    if lits == [] then []
    else
      var init, last := lits[..|lits| - 1], lits[|lits| - 1];
      FirstSeenNames(init) + (if last.package.name in NameSet(init) then [] else [last.package.name])
  }

  lemma FirstSeenNamesAppend(lits: seq<Literal>, l: Literal)
    ensures FirstSeenNames(lits + [l]) ==
      FirstSeenNames(lits) + (if l.package.name in NameSet(lits) then [] else [l.package.name])
  {
    assert (lits + [l])[..|lits|] == lits;
  }

  /** `FirstSeenNames` lists every name of the literals, and each only once. */
  lemma {:induction false} FirstSeenNamesListsEachOnce(lits: seq<Literal>)
    ensures Distinct(FirstSeenNames(lits)) && SetOf(FirstSeenNames(lits)) == NameSet(lits)
  {
    if lits != [] {
      var init, last := lits[..|lits| - 1], lits[|lits| - 1];
      assert lits == init + [last];
      FirstSeenNamesListsEachOnce(init);
      FirstSeenNamesAppend(init, last);
      NameSetAppend(init, last);
      if last.package.name !in NameSet(init) {
        DistinctAppend(FirstSeenNames(init), last.package.name);
      } else {
        assert FirstSeenNames(lits) == FirstSeenNames(init);
      }
    }
  }

  /** The state of the grouping after the literals `prefix`: `names` lists
      each name in first-seen order, and `groups` holds the group of each. */
  ghost predicate GroupedUpTo(installed: InstalledMap, prefix: seq<Literal>, names: seq<string>, groups: map<string, seq<Literal>>)
  {
    && names == FirstSeenNames(prefix)
    && groups.Keys == NameSet(prefix)
    && GroupsOf(installed, prefix, groups)
  }

  /** One step of the grouping loop keeps `GroupedUpTo`: a new name is
      listed with an empty group, then the literal is put in front of its
      group when installed and appended otherwise. */
  lemma GroupedUpToStep(installed: InstalledMap, prefix: seq<Literal>, literal: Literal,
                        names: seq<string>, groups: map<string, seq<Literal>>,
                        names': seq<string>, added: map<string, seq<Literal>>, groups': map<string, seq<Literal>>)
    requires GroupedUpTo(installed, prefix, names, groups)
    requires literal.package.name in groups ==> names' == names && added == groups
    requires literal.package.name !in groups ==>
      names' == names + [literal.package.name] && added == groups[literal.package.name := []]
    requires IsInstalled(installed, literal) ==>
      groups' == added[literal.package.name := [literal] + added[literal.package.name]]
    requires !IsInstalled(installed, literal) ==>
      groups' == added[literal.package.name := added[literal.package.name] + [literal]]
    ensures GroupedUpTo(installed, prefix + [literal], names', groups')
  {
    var name := literal.package.name;
    FirstSeenNamesAppend(prefix, literal);
    NameSetAppend(prefix, literal);
    assert GroupsOf(installed, prefix + [literal], groups') by {
      if name !in groups {
        GroupsAddName(installed, prefix, groups, name);
      }
      GroupsStep(installed, prefix, literal, added);
    }
  }

  /** Groups the literals by package name, in a dictionary of lists that
      `names` lists in insertion order: an installed literal is put in front
      of its group, any other is appended. */
  method GroupLiteralsByNamePreferInstalled(installed: InstalledMap, literals: seq<Literal>)
    returns (names: seq<string>, groups: map<string, seq<Literal>>)
    ensures GroupedUpTo(installed, literals, names, groups)
  {
    names, groups := [], map[];
    ghost var seen: seq<Literal> := [];
    var i := 0;
    while i < |literals|
      invariant 0 <= i <= |literals| && seen == literals[..i]
      invariant GroupedUpTo(installed, seen, names, groups)
    {
      var literal := literals[i];
      var name := literal.package.name;
      ghost var names0, groups0 := names, groups;
      if name !in groups {
        groups := groups[name := []];
        names := names + [name];
      }
      ghost var added := groups;
      if literal.package.id in installed {
        groups := groups[name := [literal] + groups[name]];
      } else {
        groups := groups[name := groups[name] + [literal]];
      }
      GroupedUpToStep(installed, seen, literal, names0, groups0, names, added, groups);
      assert literals[..i + 1] == literals[..i] + [literal];
      seen := seen + [literal];
      i := i + 1;
    }
    assert seen == literals;
  }

  /** Concatenates the groups of `names`, in that order. */
  function Merge(names: seq<string>, groups: map<string, seq<Literal>>): seq<Literal>
    requires forall n :: n in names ==> n in groups
  {
    if names == [] then []
    else Merge(names[..|names| - 1], groups) + groups[names[|names| - 1]]
  }

  lemma {:induction false} MergeContains(names: seq<string>, groups: map<string, seq<Literal>>, k: int, x: Literal)
    requires forall n :: n in names ==> n in groups
    requires 0 <= k < |names| && x in groups[names[k]]
    ensures x in Merge(names, groups)
  {
    if k < |names| - 1 {
      MergeContains(names[..|names| - 1], groups, k, x);
    }
  }

  lemma {:induction false} MergeMember(names: seq<string>, groups: map<string, seq<Literal>>, x: Literal)
    requires forall n :: n in names ==> n in groups
    requires x in Merge(names, groups)
    ensures exists k :: 0 <= k < |names| && x in groups[names[k]]
  {
    var init := names[..|names| - 1];
    if x in Merge(init, groups) {
      MergeMember(init, groups, x);
      var k :| 0 <= k < |init| && x in groups[init[k]];
      assert names[k] == init[k];
    } else {
      assert x in groups[names[|names| - 1]];
    }
  }

  /** Merging groups that each hold at most the literals of their name
      yields at most the literals of those names. */
  lemma {:induction false} MergeWithin(lits: seq<Literal>, names: seq<string>, groups: map<string, seq<Literal>>)
    requires Distinct(names)
    requires forall n :: n in names ==> n in groups && multiset(groups[n]) <= multiset(WithName(lits, n))
    ensures multiset(Merge(names, groups)) <= multiset(InNames(lits, SetOf(names)))
  {
    if names != [] {
      var init, last := names[..|names| - 1], names[|names| - 1];
      MergeWithin(lits, init, groups);
      SetOfMember(init, last);
      InNamesAdd(lits, SetOf(init), last);
    }
  }

  /** Merging groups that each hold exactly the literals of their name
      yields exactly the literals of those names. */
  lemma {:induction false} MergeExact(lits: seq<Literal>, names: seq<string>, groups: map<string, seq<Literal>>)
    requires Distinct(names)
    requires forall n :: n in names ==> n in groups && multiset(groups[n]) == multiset(WithName(lits, n))
    ensures multiset(Merge(names, groups)) == multiset(InNames(lits, SetOf(names)))
  {
    if names == [] {
      InNamesNone(lits);
    } else {
      var init, last := names[..|names| - 1], names[|names| - 1];
      MergeExact(lits, init, groups);
      SetOfMember(init, last);
      assert last in names;
      MergeExactStep(lits, Merge(init, groups), groups[last], SetOf(init), last);
    }
  }

  lemma MergeExactStep(lits: seq<Literal>, merged: seq<Literal>, group: seq<Literal>, names: set<string>, name: string)
    requires name !in names
    requires multiset(merged) == multiset(InNames(lits, names))
    requires multiset(group) == multiset(WithName(lits, name))
    ensures multiset(merged + group) == multiset(InNames(lits, names + {name}))
  {
    InNamesAdd(lits, names, name);
  }

  /** Merging the groups of every name gives back exactly the input: grouping
      loses and duplicates no literal. */
  lemma GroupingIsPartition(installed: InstalledMap, lits: seq<Literal>, names: seq<string>, groups: map<string, seq<Literal>>)
    requires Distinct(names) && SetOf(names) == NameSet(lits)
    requires forall n :: n in names ==> n in groups && groups[n] == Group(installed, lits, n)
    ensures multiset(Merge(names, groups)) == multiset(lits)
  {
    forall n | n in names
      ensures multiset(groups[n]) == multiset(WithName(lits, n))
    {
      GroupMultiset(installed, lits, n);
    }
    MergeExact(lits, names, groups);
    InNamesAll(lits, NameSet(lits));
  }

  /***************************** best version ******************************/

  /** The rank of the newest version among `lits`. */
  function MaxRank(rank: VersionRank, lits: seq<Literal>): int
    requires |lits| > 0
  {
    if |lits| == 1 then rank(lits[0].package.version)
    else
      var m := MaxRank(rank, lits[..|lits| - 1]);
      var v := rank(lits[|lits| - 1].package.version);
      if v > m then v else m
  }

  /** `MaxRank` is the greatest rank of the list: no literal's is greater,
      and some literal's is equal. */
  lemma {:induction false} MaxRankIsMaximum(rank: VersionRank, lits: seq<Literal>)
    requires |lits| > 0
    ensures forall k :: 0 <= k < |lits| ==> rank(lits[k].package.version) <= MaxRank(rank, lits)
    ensures exists k :: 0 <= k < |lits| && rank(lits[k].package.version) == MaxRank(rank, lits)
  {
    if |lits| == 1 {
      assert rank(lits[0].package.version) == MaxRank(rank, lits);
    } else {
      var init := lits[..|lits| - 1];
      MaxRankIsMaximum(rank, init);
      var j :| 0 <= j < |init| && rank(init[j].package.version) == MaxRank(rank, init);
      if rank(lits[|lits| - 1].package.version) > MaxRank(rank, init) {
        assert rank(lits[|lits| - 1].package.version) == MaxRank(rank, lits);
      } else {
        assert lits[j] == init[j];
        assert rank(lits[j].package.version) == MaxRank(rank, lits);
      }
    }
  }

  /** Two lists with the same literals have the same newest version. */
  lemma MaxRankOfSameLiterals(rank: VersionRank, a: seq<Literal>, b: seq<Literal>)
    requires |a| > 0 && multiset(a) == multiset(b)
    ensures |b| > 0 && MaxRank(rank, a) == MaxRank(rank, b)
  {
    assert a[0] in multiset(b);
    MaxRankIsMaximum(rank, a);
    MaxRankIsMaximum(rank, b);
    var i :| 0 <= i < |a| && rank(a[i].package.version) == MaxRank(rank, a);
    assert a[i] in multiset(b);
    var j :| 0 <= j < |b| && rank(b[j].package.version) == MaxRank(rank, b);
    assert b[j] in multiset(a);
  }

  /** The literals of `lits` whose version has rank `v`, in input order. */
  function AtVersion(rank: VersionRank, lits: seq<Literal>, v: int): seq<Literal>
  {
    if lits == [] then []
    else
      var last := lits[|lits| - 1];
      AtVersion(rank, lits[..|lits| - 1], v) + (if rank(last.package.version) == v then [last] else [])
  }

  lemma {:induction false} AtVersionMember(rank: VersionRank, lits: seq<Literal>, v: int, x: Literal)
    ensures x in AtVersion(rank, lits, v) <==> x in lits && rank(x.package.version) == v
  {
    if lits != [] {
      var init := lits[..|lits| - 1];
      AtVersionMember(rank, init, v, x);
      assert lits == init + [lits[|lits| - 1]];
    }
  }

  lemma {:induction false} AtVersionIsSubsequence(rank: VersionRank, lits: seq<Literal>, v: int)
    ensures IsSubsequence(AtVersion(rank, lits, v), lits)
  {
    if lits != [] {
      var init, last := lits[..|lits| - 1], lits[|lits| - 1];
      AtVersionIsSubsequence(rank, init, v);
      assert init + [last] == lits;
      if rank(last.package.version) == v {
        assert AtVersion(rank, lits, v) == AtVersion(rank, init, v) + [last];
        SubsequenceExtend(AtVersion(rank, init, v), init, last);
      } else {
        assert AtVersion(rank, lits, v) == AtVersion(rank, init, v);
        SubsequenceWeaken(AtVersion(rank, init, v), init, last);
      }
    }
  }

  /** No literal is at a version newer than all of them. */
  lemma {:induction false} AtVersionAbove(rank: VersionRank, lits: seq<Literal>, v: int)
    requires forall k :: 0 <= k < |lits| ==> rank(lits[k].package.version) < v
    ensures AtVersion(rank, lits, v) == []
  {
    if lits != [] {
      AtVersionAbove(rank, lits[..|lits| - 1], v);
    }
  }

  /** How one more literal changes the newest version and its literals. */
  lemma BestVersionStep(rank: VersionRank, prefix: seq<Literal>, l: Literal)
    requires |prefix| > 0
    ensures var m, v := MaxRank(rank, prefix), rank(l.package.version);
      && (v > m ==> MaxRank(rank, prefix + [l]) == v && AtVersion(rank, prefix + [l], v) == [l])
      && (v == m ==> MaxRank(rank, prefix + [l]) == m && AtVersion(rank, prefix + [l], m) == AtVersion(rank, prefix, m) + [l])
      && (v < m ==> MaxRank(rank, prefix + [l]) == m && AtVersion(rank, prefix + [l], m) == AtVersion(rank, prefix, m))
  {
    var next := prefix + [l];
    assert next[..|next| - 1] == prefix;
    var m, v := MaxRank(rank, prefix), rank(l.package.version);
    if v > m {
      MaxRankIsMaximum(rank, prefix);
      AtVersionAbove(rank, prefix, v);
    }
  }

  /** How often `x` occurs among the literals at version `v`: as often as in
      `lits` when its version is `v`, never otherwise. */
  lemma {:induction false} AtVersionCount(rank: VersionRank, lits: seq<Literal>, v: int, x: Literal)
    ensures multiset(AtVersion(rank, lits, v))[x] == if rank(x.package.version) == v then multiset(lits)[x] else 0
  {
    if lits != [] {
      var init, last := lits[..|lits| - 1], lits[|lits| - 1];
      AtVersionCount(rank, init, v, x);
      assert lits == init + [last];
    }
  }

  /** Which literals have the newest version does not depend on the order of
      the input, only the order they are listed in does. */
  lemma BestVersionIgnoresOrder(rank: VersionRank, a: seq<Literal>, b: seq<Literal>)
    requires |a| > 0 && multiset(a) == multiset(b)
    ensures |b| > 0
    ensures multiset(AtVersion(rank, a, MaxRank(rank, a))) == multiset(AtVersion(rank, b, MaxRank(rank, b)))
  {
    MaxRankOfSameLiterals(rank, a, b);
    var m := MaxRank(rank, a);
    forall x
      ensures multiset(AtVersion(rank, a, m))[x] == multiset(AtVersion(rank, b, m))[x]
    {
      AtVersionCount(rank, a, m, x);
      AtVersionCount(rank, b, m, x);
    }
  }

  /** Keeps the literals with the newest version, in input order. The source
      reads its first element unguarded; its only caller never passes an empty
      list. */
  method PruneToBestVersion(rank: VersionRank, literals: seq<Literal>) returns (bestLiterals: seq<Literal>)
    requires |literals| > 0
    ensures bestLiterals == AtVersion(rank, literals, MaxRank(rank, literals))
    ensures |bestLiterals| > 0 && IsSubsequence(bestLiterals, literals)
    ensures forall l :: l in bestLiterals <==> l in literals && rank(l.package.version) == MaxRank(rank, literals)
  {
    bestLiterals := [literals[0]];
    var bestPackage := literals[0].package;
    assert literals[..1] == [literals[0]];
    var i := 1;
    while i < |literals|
      invariant 1 <= i <= |literals|
      invariant rank(bestPackage.version) == MaxRank(rank, literals[..i])
      invariant bestLiterals == AtVersion(rank, literals[..i], MaxRank(rank, literals[..i]))
    {
      var literal := literals[i];
      assert literals[..i + 1] == literals[..i] + [literal];
      BestVersionStep(rank, literals[..i], literal);
      if VersionCompare(rank, literal.package, bestPackage, Greater) {
        bestPackage := literal.package;
        bestLiterals := [literal];
      } else if VersionCompare(rank, literal.package, bestPackage, Equal) {
        bestLiterals := bestLiterals + [literal];
      }
      i := i + 1;
    }
    assert literals[..i] == literals;
    var m := MaxRank(rank, literals);
    MaxRankIsMaximum(rank, literals);
    AtVersionIsSubsequence(rank, literals, m);
    forall l
      ensures l in bestLiterals <==> l in literals && rank(l.package.version) == m
    {
      AtVersionMember(rank, literals, m, l);
    }
    var k :| 0 <= k < |literals| && rank(literals[k].package.version) == m;
    assert literals[k] in bestLiterals;
  }

  /************************* highest priority ******************************/

  /** The priority of the first literal whose package is not installed. */
  function OpenPriority(pool: Pool, installed: InstalledMap, lits: seq<Literal>): Option<int>
  {
    if lits == [] then None
    else if IsInstalled(installed, lits[0]) then OpenPriority(pool, installed, lits[1..])
    else Some(GetPriority(pool, lits[0].package))
  }

  lemma {:induction false} OpenPriorityAt(pool: Pool, installed: InstalledMap, lits: seq<Literal>, i: int)
    requires 0 <= i < |lits| && !IsInstalled(installed, lits[i])
    requires forall k :: 0 <= k < i ==> IsInstalled(installed, lits[k])
    ensures OpenPriority(pool, installed, lits) == Some(GetPriority(pool, lits[i].package))
  {
    if i > 0 {
      OpenPriorityAt(pool, installed, lits[1..], i - 1);
    }
  }

  /** A non-installed literal whose priority is not the open priority has a
      non-installed literal before it. */
  lemma {:induction false} OpenBefore(pool: Pool, installed: InstalledMap, lits: seq<Literal>, i: int)
    requires 0 <= i < |lits| && !IsInstalled(installed, lits[i])
    requires OpenPriority(pool, installed, lits) != Some(GetPriority(pool, lits[i].package))
    ensures exists k :: 0 <= k < i && !IsInstalled(installed, lits[k])
  {
    if !IsInstalled(installed, lits[0]) {
      assert 0 < i;
    } else {
      OpenBefore(pool, installed, lits[1..], i - 1);
      var k :| 0 <= k < i - 1 && !IsInstalled(installed, lits[1..][k]);
      assert lits[k + 1] == lits[1..][k];
    }
  }

  /** Keeps the installed literals and the leading run of others that share
      the priority of the first non-installed one, stopping at the first
      non-installed literal of another priority. What is kept is therefore a
      prefix of the input, never empty when the input is not. */
  method PruneToHighestPriorityOrInstalled(pool: Pool, installed: InstalledMap, literals: seq<Literal>)
    returns (selected: seq<Literal>)
    ensures |selected| <= |literals| && selected == literals[..|selected|]
    ensures forall k :: 0 <= k < |selected| && !IsInstalled(installed, selected[k]) ==>
      OpenPriority(pool, installed, literals) == Some(GetPriority(pool, selected[k].package))
    ensures |selected| < |literals| ==>
      !IsInstalled(installed, literals[|selected|]) &&
      OpenPriority(pool, installed, literals) != Some(GetPriority(pool, literals[|selected|].package))
    ensures |literals| > 0 ==> |selected| > 0
  {
    selected := [];
    var priority: Option<int> := None;
    var i := 0;
    while i < |literals|
      invariant 0 <= i <= |literals| && selected == literals[..i]
      invariant i == 0 ==> priority.None?
      invariant priority.None? ==> forall k :: 0 <= k < i ==> IsInstalled(installed, literals[k])
      invariant priority.Some? ==> priority == OpenPriority(pool, installed, literals)
      invariant forall k :: 0 <= k < i && !IsInstalled(installed, literals[k]) ==>
        priority == Some(GetPriority(pool, literals[k].package))
    {
      var literal := literals[i];
      var package := literal.package;
      assert literals[..i + 1] == selected + [literal];
      if package.id in installed {
        selected := selected + [literal];
        i := i + 1;
        continue;
      }
      if priority.None? {
        priority := Some(GetPriority(pool, package));
        OpenPriorityAt(pool, installed, literals, i);
      }
      if GetPriority(pool, package) != priority.value {
        break;
      }
      selected := selected + [literal];
      i := i + 1;
    }
  }

  /************************** preferred packages ***************************/

  /** `l` has the newest version among the input literals of its name. */
  ghost predicate HasBestVersion(rank: VersionRank, lits: seq<Literal>, l: Literal)
  {
    var same := WithName(lits, l.package.name);
    |same| > 0 && rank(l.package.version) == MaxRank(rank, same)
  }

  /** The newest-version literals named `name` that are not installed all
      come from repositories of one priority. */
  ghost predicate UniformNewest(pool: Pool, installed: InstalledMap, rank: VersionRank, lits: seq<Literal>, name: string)
  {
    forall x, y ::
      x in WithName(lits, name) && y in WithName(lits, name)
      && HasBestVersion(rank, lits, x) && HasBestVersion(rank, lits, y)
      && !IsInstalled(installed, x) && !IsInstalled(installed, y)
      ==> GetPriority(pool, x.package) == GetPriority(pool, y.package)
  }

  /** The literals of `g` that are not installed share one priority. */
  ghost predicate OnePriority(pool: Pool, installed: InstalledMap, g: seq<Literal>)
  {
    forall x, y :: x in g && y in g && !IsInstalled(installed, x) && !IsInstalled(installed, y) ==>
      GetPriority(pool, x.package) == GetPriority(pool, y.package)
  }

  /** Some literal of `g` is not installed. */
  ghost predicate HasOpenLiteral(installed: InstalledMap, g: seq<Literal>)
  {
    exists w :: w in g && !IsInstalled(installed, w)
  }

  /** What the pruning keeps of the group of `name`: some of its literals, at
      least one, each with the newest version of that name; those not
      installed share one priority; at least one is not installed when some
      newest literal of the name is not; and when every newest literal that
      is not installed has the same priority, all the newest literals are
      kept. */
  ghost predicate Kept(pool: Pool, installed: InstalledMap, rank: VersionRank, lits: seq<Literal>, name: string, g: seq<Literal>)
  {
    && |g| > 0
    && multiset(g) <= multiset(WithName(lits, name))
    && (forall x :: x in g ==> HasBestVersion(rank, lits, x))
    && OnePriority(pool, installed, g)
    && (forall z :: z in WithName(lits, name) && HasBestVersion(rank, lits, z) && !IsInstalled(installed, z) ==>
          HasOpenLiteral(installed, g))
    && (UniformNewest(pool, installed, rank, lits, name) ==>
          forall x :: x in WithName(lits, name) && HasBestVersion(rank, lits, x) ==> x in g)
  }

  /** When some literal is not installed, the open priority is the priority
      of one that is not. */
  lemma {:induction false} OpenPriorityWitness(pool: Pool, installed: InstalledMap, lits: seq<Literal>, z: Literal)
    requires z in lits && !IsInstalled(installed, z)
    ensures exists w ::
      w in lits && !IsInstalled(installed, w) && OpenPriority(pool, installed, lits) == Some(GetPriority(pool, w.package))
  {
    if IsInstalled(installed, lits[0]) {
      var i :| 0 <= i < |lits| && lits[i] == z;
      assert lits[1..][i - 1] == z;
      OpenPriorityWitness(pool, installed, lits[1..], z);
      var w :| w in lits[1..] && !IsInstalled(installed, w) &&
        OpenPriority(pool, installed, lits[1..]) == Some(GetPriority(pool, w.package));
      assert w in lits;
    } else {
      assert lits[0] in lits;
    }
  }

  /** A literal the best-version pruning keeps of a group is an input literal
      of the group's name with the newest version of that name. */
  lemma NewestOfGroup(rank: VersionRank, lits: seq<Literal>, name: string, group: seq<Literal>, z: Literal)
    requires |group| > 0 && multiset(group) == multiset(WithName(lits, name))
    requires z in group && rank(z.package.version) == MaxRank(rank, group)
    ensures z in WithName(lits, name) && HasBestVersion(rank, lits, z)
  {
    assert z in multiset(WithName(lits, name));
    WithNameMember(lits, name, z);
    MaxRankOfSameLiterals(rank, group, WithName(lits, name));
  }

  /** The prefix the priority pruning keeps of the newest-version literals of
      a group is what `Kept` describes. */
  lemma PrunedGroupIsKept(pool: Pool, installed: InstalledMap, rank: VersionRank, lits: seq<Literal>, name: string,
                          group: seq<Literal>, best: seq<Literal>, kept: seq<Literal>)
    requires |group| > 0 && multiset(group) == multiset(WithName(lits, name))
    requires IsSubsequence(best, group)
    requires forall l :: l in best <==> l in group && rank(l.package.version) == MaxRank(rank, group)
    requires 0 < |kept| <= |best| && kept == best[..|kept|]
    requires forall k :: 0 <= k < |kept| && !IsInstalled(installed, kept[k]) ==>
      OpenPriority(pool, installed, best) == Some(GetPriority(pool, kept[k].package))
    requires |kept| < |best| ==>
      !IsInstalled(installed, best[|kept|]) &&
      OpenPriority(pool, installed, best) != Some(GetPriority(pool, best[|kept|].package))
    ensures Kept(pool, installed, rank, lits, name, kept)
  {
    SubsequenceMultiset(best, group);
    assert best == kept + best[|kept|..];
    assert multiset(kept) <= multiset(best);
    forall x | x in kept
      ensures HasBestVersion(rank, lits, x)
    {
      NewestOfGroup(rank, lits, name, group, x);
    }
    assert OnePriority(pool, installed, kept) by {
      forall x, y | x in kept && y in kept && !IsInstalled(installed, x) && !IsInstalled(installed, y)
        ensures GetPriority(pool, x.package) == GetPriority(pool, y.package)
      {
        var i :| 0 <= i < |kept| && kept[i] == x;
        var j :| 0 <= j < |kept| && kept[j] == y;
      }
    }
    PrunedGroupKeepsOpen(pool, installed, rank, lits, name, group, best, kept);
    if UniformNewest(pool, installed, rank, lits, name) {
      UniformGroupKeepsNewest(pool, installed, rank, lits, name, group, best, kept);
    }
  }

  /** The priority pruning keeps a non-installed literal whenever the group
      has a newest one: the first non-installed literal sets the priority and
      is then kept. */
  lemma PrunedGroupKeepsOpen(pool: Pool, installed: InstalledMap, rank: VersionRank, lits: seq<Literal>, name: string,
      group: seq<Literal>, best: seq<Literal>, kept: seq<Literal>)
    requires |group| > 0 && multiset(group) == multiset(WithName(lits, name))
    requires forall l :: l in best <==> l in group && rank(l.package.version) == MaxRank(rank, group)
    requires 0 < |kept| <= |best| && kept == best[..|kept|]
    requires |kept| < |best| ==>
      !IsInstalled(installed, best[|kept|]) &&
      OpenPriority(pool, installed, best) != Some(GetPriority(pool, best[|kept|].package))
    ensures forall z :: z in WithName(lits, name) && HasBestVersion(rank, lits, z) && !IsInstalled(installed, z) ==>
      HasOpenLiteral(installed, kept)
  {
    MaxRankOfSameLiterals(rank, group, WithName(lits, name));
    forall z | z in WithName(lits, name) && HasBestVersion(rank, lits, z) && !IsInstalled(installed, z)
      ensures HasOpenLiteral(installed, kept)
    {
      WithNameMember(lits, name, z);
      assert z in multiset(group);
      assert z in best;
      if |kept| == |best| {
        assert z in kept;
      } else {
        OpenBefore(pool, installed, best, |kept|);
        var k :| 0 <= k < |kept| && !IsInstalled(installed, best[k]);
        assert kept[k] in kept;
      }
    }
  }

  /** When the newest non-installed literals of the name share one priority,
      the priority pruning stops nowhere and keeps all of them. */
  lemma UniformGroupKeepsNewest(pool: Pool, installed: InstalledMap, rank: VersionRank, lits: seq<Literal>, name: string,
      group: seq<Literal>, best: seq<Literal>, kept: seq<Literal>)
    requires |group| > 0 && multiset(group) == multiset(WithName(lits, name))
    requires forall l :: l in best <==> l in group && rank(l.package.version) == MaxRank(rank, group)
    requires 0 < |kept| <= |best| && kept == best[..|kept|]
    requires |kept| < |best| ==>
      !IsInstalled(installed, best[|kept|]) &&
      OpenPriority(pool, installed, best) != Some(GetPriority(pool, best[|kept|].package))
    requires UniformNewest(pool, installed, rank, lits, name)
    ensures forall x :: x in WithName(lits, name) && HasBestVersion(rank, lits, x) ==> x in kept
  {
    forall z | z in best && !IsInstalled(installed, z)
      ensures OpenPriority(pool, installed, best) == Some(GetPriority(pool, z.package))
    {
      OpenPriorityWitness(pool, installed, best, z);
      var w :| w in best && !IsInstalled(installed, w) &&
        OpenPriority(pool, installed, best) == Some(GetPriority(pool, w.package));
      NewestOfGroup(rank, lits, name, group, z);
      NewestOfGroup(rank, lits, name, group, w);
    }
    assert |kept| == |best|;
    MaxRankOfSameLiterals(rank, group, WithName(lits, name));
    forall x | x in WithName(lits, name) && HasBestVersion(rank, lits, x)
      ensures x in kept
    {
      WithNameMember(lits, name, x);
      assert x in multiset(group);
    }
  }

  /** Both prunings on one group. */
  method PruneGroup(pool: Pool, rank: VersionRank, installed: InstalledMap, lits: seq<Literal>, name: string, group: seq<Literal>)
    returns (kept: seq<Literal>)
    requires |group| > 0 && multiset(group) == multiset(WithName(lits, name))
    ensures Kept(pool, installed, rank, lits, name, kept)
  {
    var best := PruneToBestVersion(rank, group);
    kept := PruneToHighestPriorityOrInstalled(pool, installed, best);
    PrunedGroupIsKept(pool, installed, rank, lits, name, group, best, kept);
  }

  /** Merging groups kept for every name keeps only input literals, at least
      one per name, each with the newest version of its name. */
  lemma MergedSelection(pool: Pool, installed: InstalledMap, rank: VersionRank, lits: seq<Literal>,
                        names: seq<string>, groups: map<string, seq<Literal>>)
    requires Distinct(names) && SetOf(names) == NameSet(lits)
    requires forall n :: n in names ==> n in groups && Kept(pool, installed, rank, lits, n, groups[n])
    ensures multiset(Merge(names, groups)) <= multiset(lits)
    ensures forall l :: l in lits ==> exists s :: s in Merge(names, groups) && s.package.name == l.package.name
    ensures forall s :: s in Merge(names, groups) ==> HasBestVersion(rank, lits, s)
  {
    MergeWithin(lits, names, groups);
    InNamesAll(lits, NameSet(lits));
    forall l | l in lits
      ensures exists s :: s in Merge(names, groups) && s.package.name == l.package.name
    {
      var n := l.package.name;
      NameSetMember(lits, n);
      SetOfMember(names, n);
      var k :| 0 <= k < |names| && names[k] == n;
      var s := groups[n][0];
      assert s in multiset(WithName(lits, n));
      WithNameMember(lits, n, s);
      MergeContains(names, groups, k, s);
    }
    forall s | s in Merge(names, groups)
      ensures HasBestVersion(rank, lits, s)
    {
      MergeMember(names, groups, s);
    }
  }

  /** A merged literal comes from the kept group of its own name. */
  lemma MergedFromOwnGroup(pool: Pool, installed: InstalledMap, rank: VersionRank, lits: seq<Literal>,
                           names: seq<string>, groups: map<string, seq<Literal>>, x: Literal)
    requires forall n :: n in names ==> n in groups && Kept(pool, installed, rank, lits, n, groups[n])
    requires x in Merge(names, groups)
    ensures x.package.name in names && x in groups[x.package.name]
  {
    MergeMember(names, groups, x);
    var k :| 0 <= k < |names| && x in groups[names[k]];
    assert names[k] in names;
    assert x in multiset(WithName(lits, names[k]));
    WithNameMember(lits, names[k], x);
  }

  /** What the priority pruning guarantees survives the merge: literals of one
      name that are not installed share a priority, and a name whose newest
      literals that are not installed share a priority keeps all its newest
      literals. */
  lemma MergedPriorities(pool: Pool, installed: InstalledMap, rank: VersionRank, lits: seq<Literal>,
                         names: seq<string>, groups: map<string, seq<Literal>>)
    requires SetOf(names) == NameSet(lits)
    requires forall n :: n in names ==> n in groups && Kept(pool, installed, rank, lits, n, groups[n])
    ensures forall x, y ::
      x in Merge(names, groups) && y in Merge(names, groups) && x.package.name == y.package.name
      && !IsInstalled(installed, x) && !IsInstalled(installed, y)
      ==> GetPriority(pool, x.package) == GetPriority(pool, y.package)
    ensures forall x ::
      x in lits && HasBestVersion(rank, lits, x) && UniformNewest(pool, installed, rank, lits, x.package.name)
      ==> x in Merge(names, groups)
    ensures forall z :: z in lits && HasBestVersion(rank, lits, z) && !IsInstalled(installed, z) ==>
      exists w :: w in Merge(names, groups) && w.package.name == z.package.name && !IsInstalled(installed, w)
  {
    forall z | z in lits && HasBestVersion(rank, lits, z) && !IsInstalled(installed, z)
      ensures exists w :: w in Merge(names, groups) && w.package.name == z.package.name && !IsInstalled(installed, w)
    {
      var n := z.package.name;
      NameSetMember(lits, n);
      SetOfMember(names, n);
      WithNameMember(lits, n, z);
      var k :| 0 <= k < |names| && names[k] == n;
      assert HasOpenLiteral(installed, groups[n]);
      var w :| w in groups[n] && !IsInstalled(installed, w);
      assert w in multiset(WithName(lits, n));
      WithNameMember(lits, n, w);
      MergeContains(names, groups, k, w);
    }
    forall x, y | x in Merge(names, groups) && y in Merge(names, groups) && x.package.name == y.package.name
      && !IsInstalled(installed, x) && !IsInstalled(installed, y)
      ensures GetPriority(pool, x.package) == GetPriority(pool, y.package)
    {
      MergedFromOwnGroup(pool, installed, rank, lits, names, groups, x);
      MergedFromOwnGroup(pool, installed, rank, lits, names, groups, y);
      assert OnePriority(pool, installed, groups[x.package.name]);
    }
    forall x | x in lits && HasBestVersion(rank, lits, x) && UniformNewest(pool, installed, rank, lits, x.package.name)
      ensures x in Merge(names, groups)
    {
      var n := x.package.name;
      NameSetMember(lits, n);
      SetOfMember(names, n);
      WithNameMember(lits, n, x);
      var k :| 0 <= k < |names| && names[k] == n;
      MergeContains(names, groups, k, x);
    }
  }

  /** `groups` maps each of the distinct `names` of the literals to a
      non-empty rearrangement of the literals with that name. */
  ghost predicate Grouped(lits: seq<Literal>, names: seq<string>, groups: map<string, seq<Literal>>)
  {
    && Distinct(names)
    && SetOf(names) == NameSet(lits) == groups.Keys
    && forall n :: n in groups ==> |groups[n]| > 0 && multiset(groups[n]) == multiset(WithName(lits, n))
  }

  /** The grouping by name yields a `Grouped` dictionary. */
  lemma GroupingIsGrouped(installed: InstalledMap, lits: seq<Literal>, names: seq<string>, groups: map<string, seq<Literal>>)
    requires GroupedUpTo(installed, lits, names, groups)
    ensures Grouped(lits, names, groups)
  {
    FirstSeenNamesListsEachOnce(lits);
    forall n | n in groups
      ensures |groups[n]| > 0 && multiset(groups[n]) == multiset(WithName(lits, n))
    {
      GroupMultiset(installed, lits, n);
      NameSetMember(lits, n);
      var l :| l in lits && l.package.name == n;
      WithNameMember(lits, n, l);
    }
  }

  /** Sorts every group with the comparator that ignores replaces. */
  method SortGroups(pool: Pool, installed: InstalledMap, lits: seq<Literal>, names: seq<string>, groups: map<string, seq<Literal>>)
    returns (sorted: map<string, seq<Literal>>)
    requires Grouped(lits, names, groups)
    ensures Grouped(lits, names, sorted)
    ensures forall n :: n in sorted ==> multiset(sorted[n]) == multiset(groups[n])
  {
    sorted := groups;
    var i := 0;
    while i < |names|
      invariant 0 <= i <= |names| && Grouped(lits, names, sorted)
      invariant forall n :: n in sorted ==> multiset(sorted[n]) == multiset(groups[n])
    {
      var name := names[i];
      SetOfMember(names, name);
      var group := USort(sorted[name], (a: Literal, b: Literal) => CompareByPriorityPreferInstalled(pool, installed, a.package, b.package, true));
      sorted := sorted[name := group];
      i := i + 1;
    }
  }

  /** Replacing the group of `names[i]` by a kept one keeps the groups of
      the names before it, which are distinct from it. */
  lemma KeptAfterUpdate(pool: Pool, installed: InstalledMap, rank: VersionRank, lits: seq<Literal>,
                        names: seq<string>, groups: map<string, seq<Literal>>, i: int, kept: seq<Literal>)
    requires Distinct(names) && 0 <= i < |names|
    requires forall k :: 0 <= k < |names| ==> names[k] in groups
    requires forall k :: 0 <= k < i ==> Kept(pool, installed, rank, lits, names[k], groups[names[k]])
    requires Kept(pool, installed, rank, lits, names[i], kept)
    ensures forall k :: 0 <= k <= i ==> Kept(pool, installed, rank, lits, names[k], groups[names[i] := kept][names[k]])
  {
    forall k | 0 <= k <= i
      ensures Kept(pool, installed, rank, lits, names[k], groups[names[i] := kept][names[k]])
    {
      if k < i {
        assert groups[names[i] := kept][names[k]] == groups[names[k]];
      }
    }
  }

  /** Prunes every group to its newest version and then to its installed
      literals and leading same-priority run. */
  method PruneGroups(pool: Pool, rank: VersionRank, installed: InstalledMap, lits: seq<Literal>, names: seq<string>, groups: map<string, seq<Literal>>)
    returns (pruned: map<string, seq<Literal>>)
    requires Grouped(lits, names, groups)
    ensures pruned.Keys == groups.Keys
    ensures forall n :: n in names ==> n in pruned && Kept(pool, installed, rank, lits, n, pruned[n])
  {
    pruned := groups;
    forall k | 0 <= k < |names|
      ensures names[k] in pruned
    {
      SetOfMember(names, names[k]);
    }
    var i := 0;
    while i < |names|
      invariant 0 <= i <= |names| && pruned.Keys == groups.Keys
      invariant forall k :: 0 <= k < |names| ==> names[k] in pruned
      invariant forall k :: 0 <= k < i ==> Kept(pool, installed, rank, lits, names[k], pruned[names[k]])
      invariant forall k :: i <= k < |names| ==> pruned[names[k]] == groups[names[k]]
    {
      var name := names[i];
      var kept := PruneGroup(pool, rank, installed, lits, name, pruned[name]);
      KeptAfterUpdate(pool, installed, rank, lits, names, pruned, i, kept);
      pruned := pruned[name := kept];
      i := i + 1;
    }
    forall n | n in names
      ensures n in pruned && Kept(pool, installed, rank, lits, n, pruned[n])
    {
      var k :| 0 <= k < |names| && names[k] == n;
    }
  }

  /** Orders the literals the solver may branch on by preference: grouped by
      name, each group pruned to its newest version and then to its installed
      literals and leading same-priority run, everything merged and sorted
      again. Only input literals come out, at least one for every name, each
      with the newest version of its name; the selected literals of one name
      that are not installed share a priority; and a name whose newest
      literals that are not installed share a priority has all its newest
      literals selected. */
  method SelectPreferedPackages(pool: Pool, rank: VersionRank, installed: InstalledMap, literals: seq<Literal>)
    returns (selected: seq<Literal>)
    ensures multiset(selected) <= multiset(literals)
    ensures forall l :: l in literals ==> exists s :: s in selected && s.package.name == l.package.name
    ensures forall s :: s in selected ==> HasBestVersion(rank, literals, s)
    ensures forall x, y ::
      x in selected && y in selected && x.package.name == y.package.name
      && !IsInstalled(installed, x) && !IsInstalled(installed, y)
      ==> GetPriority(pool, x.package) == GetPriority(pool, y.package)
    ensures forall x ::
      x in literals && HasBestVersion(rank, literals, x) && UniformNewest(pool, installed, rank, literals, x.package.name)
      ==> x in selected
    ensures forall z :: z in literals && HasBestVersion(rank, literals, z) && !IsInstalled(installed, z) ==>
      exists w :: w in selected && w.package.name == z.package.name && !IsInstalled(installed, w)
  {
    var names: seq<string>, packages: map<string, seq<Literal>>;
    names, packages := GroupLiteralsByNamePreferInstalled(installed, literals);
    GroupingIsGrouped(installed, literals, names, packages);
    packages := SortGroups(pool, installed, literals, names, packages);
    packages := PruneGroups(pool, rank, installed, literals, names, packages);

    MergedSelection(pool, installed, rank, literals, names, packages);
    MergedPriorities(pool, installed, rank, literals, names, packages);
    var merged := Merge(names, packages);
    selected := USort(merged, (a: Literal, b: Literal) => CompareByPriorityPreferInstalled(pool, installed, a.package, b.package, false));
    assert forall x :: x in selected <==> x in merged by {
      forall x
        ensures x in selected <==> x in merged
      {
        assert x in selected <==> x in multiset(selected);
      }
    }
  }
}
