/** A clause of the dependency solver: a disjunction of literals, kept sorted
    by literal id, with the two watched literal ids the solver's propagation
    uses, enable/weak flags, a rule type and a short fingerprint of its ids. */
module Rules {
  import opened Common
  import opened Sequences
  import opened Literals

  /** Three-way comparison of literals by id: 0 for equal ids, -1 when `a`'s
      id is smaller, 1 otherwise. */
  function CompareLiteralsById(a: Literal, b: Literal): (r: int)
    ensures r == 0 <==> a.id == b.id
    ensures r < 0 <==> a.id < b.id
    ensures r > 0 <==> a.id > b.id
  {
    if a.id == b.id then 0 else if a.id < b.id then -1 else 1
  }

  /** Comparing by id orders any list of literals consistently, so sorting
      with it really sorts. */
  lemma CompareByIdIsTotalPreorder(s: seq<Literal>)
    ensures TotalPreorderOn(CompareLiteralsById, s)
  {
  }

  /** No literal comes after one with a larger id. */
  ghost predicate SortedById(s: seq<Literal>) {
    forall i, j | 0 <= i < j < |s| :: s[i].id <= s[j].id
  }

  /** The ids of a list of literals, in order. */
  function Ids(s: seq<Literal>): seq<int> {
    seq(|s|, k requires 0 <= k < |s| => s[k].id)
  }

  lemma IdsAppend(a: seq<Literal>, b: seq<Literal>)
    ensures Ids(a + b) == Ids(a) + Ids(b)
  {
  }

  /** Reordering literals reorders their ids the same way. */
  lemma {:induction false} IdsPermutation(a: seq<Literal>, b: seq<Literal>)
    requires multiset(a) == multiset(b)
    ensures multiset(Ids(a)) == multiset(Ids(b))
    decreases |a|
  {
    if a == [] {
      assert |b| == |multiset(b)| == 0;
    } else {
      var n := |a| - 1;
      var x := a[n];
      assert a == a[..n] + [x];
      assert x in multiset(b);
      var k :| 0 <= k < |b| && b[k] == x;
      var rest := b[..k] + b[k + 1..];
      assert b == b[..k] + [x] + b[k + 1..];
      assert multiset(a) == multiset(a[..n]) + multiset{x};
      assert multiset(b) == multiset(b[..k]) + multiset{x} + multiset(b[k + 1..]);
      assert multiset(rest) == multiset(b[..k]) + multiset(b[k + 1..]);
      assert multiset(a[..n]) == multiset(a) - multiset{x};
      assert multiset(rest) == multiset(b) - multiset{x};
      IdsPermutation(a[..n], rest);
      IdsAppend(a[..n], [x]);
      IdsAppend(b[..k], b[k + 1..]);
      IdsAppend(b[..k] + [x], b[k + 1..]);
      IdsAppend(b[..k], [x]);
    }
  }

  /** No element of `s` is larger than a later one. */
  ghost predicate Ascending(s: seq<int>) {
    forall i, j | 0 <= i < j < |s| :: s[i] <= s[j]
  }

  /** The last element of an ascending list bounds every value in it. */
  lemma AscendingLastIsMax(s: seq<int>, x: int)
    requires s != [] && Ascending(s) && x in multiset(s)
    ensures x <= s[|s| - 1]
  {
    var k :| 0 <= k < |s| && s[k] == x;
  }

  lemma AscendingPrefix(s: seq<int>, n: nat)
    requires n <= |s| && Ascending(s)
    ensures Ascending(s[..n])
  {
  }

  /** Two ascending integer lists holding the same values are the same list. */
  lemma {:induction false} SortedPermutationsEqual(a: seq<int>, b: seq<int>)
    requires multiset(a) == multiset(b)
    requires Ascending(a) && Ascending(b)
    ensures a == b
    decreases |a|
  {
    SameSize(a, b);
    if a != [] {
      var n := |a| - 1;
      LastAgrees(a, b);
      SortedPermutationsEqual(a[..n], b[..n]);
      assert a == a[..n] + [a[n]] && b == b[..n] + [b[n]];
    }
  }

  lemma SameSize(a: seq<int>, b: seq<int>)
    requires multiset(a) == multiset(b)
    ensures |a| == |b|
  {
    assert |a| == |multiset(a)| && |b| == |multiset(b)|;
  }

  /** Equal ascending non-empty lists of values end alike, and what precedes
      the last element is again ascending and holds the same values. */
  lemma LastAgrees(a: seq<int>, b: seq<int>)
    requires a != [] && |a| == |b| && multiset(a) == multiset(b)
    requires Ascending(a) && Ascending(b)
    ensures a[|a| - 1] == b[|b| - 1]
    ensures multiset(a[..|a| - 1]) == multiset(b[..|b| - 1])
    ensures Ascending(a[..|a| - 1]) && Ascending(b[..|b| - 1])
  {
    var n := |a| - 1;
    AscendingLastIsMax(b, a[n]);
    AscendingLastIsMax(a, b[n]);
    DropLast(a);
    DropLast(b);
    AscendingPrefix(a, n);
    AscendingPrefix(b, n);
  }

  lemma DropLast(a: seq<int>)
    requires a != []
    ensures multiset(a[..|a| - 1]) == multiset(a) - multiset{a[|a| - 1]}
  {
    assert a == a[..|a| - 1] + [a[|a| - 1]];
  }

  /** Literal lists sorted by id that are permutations of each other have the
      same id sequence. */
  lemma SortedLiteralsHaveSameIds(a: seq<Literal>, b: seq<Literal>)
    requires multiset(a) == multiset(b)
    requires SortedById(a) && SortedById(b)
    ensures Ids(a) == Ids(b)
  {
    IdsPermutation(a, b);
    SortedPermutationsEqual(Ids(a), Ids(b));
  }

  /** PHP values met by the element comparison of `Rule::equals`. */
  datatype PhpValue = PhpBool(b: bool) | PhpInt(i: int)

  /** PHP's `!`: an integer is truthy unless it is 0. */
  function PhpNot(v: PhpValue): PhpValue {
    match v
    case PhpBool(b) => PhpBool(!b)
    case PhpInt(i) => PhpBool(i == 0)
  }

  /** PHP's `===`: same type and same value. */
  predicate PhpIdentical(u: PhpValue, v: PhpValue) {
    u == v
  }

  /** The element test of `Rule::equals` as written: `!` binds tighter than
      `===`, so a boolean is compared with an integer id and the test never
      holds, whatever the two ids are. */
  predicate ElementDiffersAsWritten(x: int, y: int) {
    PhpIdentical(PhpNot(PhpInt(x)), PhpInt(y))
  }

  lemma ElementTestNeverHolds(x: int, y: int)
    ensures !ElementDiffersAsWritten(x, y)
  {
  }

  /** The parts concatenated, with `sep` between neighbours. */
  function Join(parts: seq<string>, sep: string): string {
    if parts == [] then ""
    else if |parts| == 1 then parts[0]
    else Join(parts[..|parts| - 1], sep) + sep + parts[|parts| - 1]
  }

  /** Each literal's printable form, in order. */
  function Rendered(s: seq<Literal>, render: Literal -> string): seq<string> {
    seq(|s|, k requires 0 <= k < |s| => render(s[k]))
  }

  /** The printable form of a rule: `disabled(` or `(`, the literals joined
      by `|`, then `)`. */
  function RuleText(disabled: bool, s: seq<Literal>, render: Literal -> string): string {
    (if disabled then "disabled(" else "(") + Join(Rendered(s, render), "|") + ")"
  }

  /** The printable form starts with `disabled(` exactly for disabled rules and
      always ends with `)`. */
  lemma RuleTextForm(disabled: bool, s: seq<Literal>, render: Literal -> string)
    ensures var t := RuleText(disabled, s, render);
      && |t| >= 2 && t[|t| - 1] == ')'
      && (disabled <==> |t| >= 9 && t[..9] == "disabled(")
  {
    var t := RuleText(disabled, s, render);
    if !disabled {
      assert t[0] == '(';
    } else {
      assert t[..9] == "disabled(";
    }
  }

  /** What sorting `lits` by id yields: a list of the same length, ascending
      in id, whose first two ids are ids of literals of `lits`, the first of
      them the smallest. */
  lemma SortedLiterals(lits: seq<Literal>, sorted: seq<Literal>)
    requires multiset(sorted) == multiset(lits)
    requires SortedBy(CompareLiteralsById, sorted)
    ensures |sorted| == |lits| && SortedById(sorted)
    ensures |lits| > 0 ==> exists k :: 0 <= k < |lits| && lits[k].id == sorted[0].id
    ensures |lits| > 1 ==> exists k :: 0 <= k < |lits| && lits[k].id == sorted[1].id
    ensures forall k :: 0 <= k < |lits| ==> sorted[0].id <= lits[k].id
  {
    assert |sorted| == |multiset(sorted)| == |multiset(lits)| == |lits|;
    if |lits| > 0 {
      assert sorted[0] in multiset(lits);
      forall k | 0 <= k < |lits|
        ensures sorted[0].id <= lits[k].id
      {
        assert lits[k] in multiset(sorted);
      }
    }
    if |lits| > 1 {
      assert sorted[1] in multiset(lits);
    }
  }

  /** The list joined by `sep` grows by one part per element. */
  lemma JoinRenderedStep(lits: seq<Literal>, i: int, render: Literal -> string, sep: string)
    requires 0 <= i < |lits|
    ensures Join(Rendered(lits[..i + 1], render), sep)
      == if i == 0 then render(lits[0]) else Join(Rendered(lits[..i], render), sep) + sep + render(lits[i])
  {
    var parts := Rendered(lits[..i + 1], render);
    assert parts[..i] == Rendered(lits[..i], render);
  }

  class Rule {
    const literals: seq<Literal>
    const reason: int
    const ruleHash: string

    var disabled: bool
    var weak: bool
    var ruleType: int
    var id: Option<int>

    var watch1: int
    var watch2: int
    var next1: Rule?
    var next2: Rule?

    /** A rule over `lits`, stored sorted by id. Watches start on the first
        two ids (0 where there is no such literal); the rule starts enabled,
        strong, of type -1, with no id and no successors. `fingerprint` stands
        for the first five hex digits of the md5 of the comma-joined ids. */
    constructor (lits: seq<Literal>, reason: int, fingerprint: seq<int> -> string)
      ensures multiset(literals) == multiset(lits) && SortedById(literals)
      ensures |literals| == |lits|
      ensures this.reason == reason
      ensures watch1 == (if |lits| > 0 then literals[0].id else 0)
      ensures watch2 == (if |lits| > 1 then literals[1].id else 0)
      ensures |lits| > 0 ==> exists k :: 0 <= k < |lits| && lits[k].id == watch1
      ensures |lits| > 1 ==> exists k :: 0 <= k < |lits| && lits[k].id == watch2
      ensures forall k :: 0 <= k < |lits| ==> watch1 <= lits[k].id
      ensures !disabled && !weak && ruleType == -1 && id == None
      ensures next1 == null && next2 == null
      ensures ruleHash == fingerprint(Ids(literals))
    {
      CompareByIdIsTotalPreorder(lits);
      var sorted := USort(lits, CompareLiteralsById);
      SortedLiterals(lits, sorted);
      literals := sorted;
      this.reason := reason;
      disabled := false;
      weak := false;
      watch1 := if |sorted| > 0 then sorted[0].id else 0;
      watch2 := if |sorted| > 1 then sorted[1].id else 0;
      ruleType := -1;
      id := None;
      next1 := null;
      next2 := null;
      ruleHash := fingerprint(Ids(sorted));
    }

    /** The fingerprint fixed at construction. */
    function GetHash(): (r: string)
      ensures r == ruleHash
    {
      ruleHash
    }

    method SetId(newId: int)
      modifies this`id
      ensures GetId() == Some(newId)
    {
      id := Some(newId);
    }

    function GetId(): Option<int> reads this { id }

    /** `Rule::equals` as written: false when the fingerprints or the sizes
        differ; the element loop never rejects, so every pair of equal-size
        rules with equal fingerprints is reported equal. */
    method Equals(other: Rule) returns (eq: bool)
      ensures eq <==> ruleHash == other.ruleHash && |literals| == |other.literals|
    {
      if ruleHash != other.ruleHash {
        return false;
      }
      if |literals| != |other.literals| {
        return false;
      }
      var i := 0;
      while i < |literals|
        invariant 0 <= i <= |literals|
      {
        if ElementDiffersAsWritten(literals[i].id, other.literals[i].id) {
          return false;
        }
        i := i + 1;
      }
      return true;
    }

    /** The comparison `Rule::equals` evidently means: equal fingerprints and
        the same ids position by position. */
    method EqualsById(other: Rule) returns (eq: bool)
      ensures eq <==> ruleHash == other.ruleHash && Ids(literals) == Ids(other.literals)
    {
      if ruleHash != other.ruleHash {
        return false;
      }
      if |literals| != |other.literals| {
        assert |Ids(literals)| != |Ids(other.literals)|;
        return false;
      }
      var i := 0;
      while i < |literals|
        invariant 0 <= i <= |literals|
        invariant forall k :: 0 <= k < i ==> literals[k].id == other.literals[k].id
      {
        if literals[i].id != other.literals[i].id {
          assert Ids(literals)[i] != Ids(other.literals)[i];
          return false;
        }
        i := i + 1;
      }
      return true;
    }

    method SetType(t: int)
      modifies this`ruleType
      ensures GetType() == t
    {
      ruleType := t;
    }

    function GetType(): int reads this { ruleType }

    method Disable()
      modifies this`disabled
      ensures IsDisabled() && !IsEnabled()
    {
      disabled := true;
    }

    method Enable()
      modifies this`disabled
      ensures IsEnabled() && !IsDisabled()
    {
      disabled := false;
    }

    function IsDisabled(): bool reads this { disabled }

    /** Always the negation of `IsDisabled`. */
    function IsEnabled(): (r: bool)
      reads this
      ensures r != IsDisabled()
    {
      !disabled
    }

    function IsWeak(): bool reads this { weak }

    method SetWeak(w: bool)
      modifies this`weak
      ensures IsWeak() == w
    {
      weak := w;
    }

    /** The literals as the constructor stored them: sorted by id. */
    function GetLiterals(): (r: seq<Literal>)
      ensures r == literals
    {
      literals
    }

    /** A rule is an assertion when it has exactly one literal. */
    function IsAssertion(): (r: bool)
      ensures r <==> |literals| == 1
    {
      |literals| == 1
    }

    /** The successor of this rule in the watch list of `literal`. */
    function GetNext(literal: Literal): (r: Rule?)
      reads this
      ensures watch1 == literal.id ==> r == next1
      ensures watch1 != literal.id ==> r == next2
    {
      if watch1 == literal.id then next1 else next2
    }

    /** The watch that is not `literal`'s: `watch2` when `literal` is the
        first watch, `watch1` otherwise. */
    function GetOtherWatch(literal: Literal): (r: int)
      reads this
      ensures watch1 == literal.id ==> r == watch2
      ensures watch1 != literal.id ==> r == watch1
    {
      if watch1 == literal.id then watch2 else watch1
    }

    /** `Rule::__toString`: `render` gives each literal's printable form. The
        joined literals are built apart from the opening `disabled(` or `(`
        and wrapped once the loop is done. */
    method ToString(render: Literal -> string) returns (s: string)
      ensures s == RuleText(disabled, literals, render)
    {
      var head := if IsDisabled() then "disabled(" else "(";
      var body := "";
      var i := 0;
      while i < |literals|
        invariant 0 <= i <= |literals|
        invariant body == Join(Rendered(literals[..i], render), "|")
      {
        JoinRenderedStep(literals, i, render, "|");
        if i != 0 {
          body := body + "|";
        }
        body := body + render(literals[i]);
        i := i + 1;
      }
      assert literals[..i] == literals;
      s := head + body + ")";
    }
  }

  /** Rules built from two orderings of the same literals carry the same id
      sequence and fingerprint, so both `Equals` and `EqualsById` accept
      them. */
  method PermutedRulesAreEqual(lits: seq<Literal>, perm: seq<Literal>, fingerprint: seq<int> -> string)
    returns (eq: bool, eqById: bool)
    requires multiset(perm) == multiset(lits)
    ensures eq && eqById
  {
    var r1 := new Rule(lits, 0, fingerprint);
    var r2 := new Rule(perm, 0, fingerprint);
    SortedLiteralsHaveSameIds(r1.literals, r2.literals);
    eq := r1.Equals(r2);
    eqById := r1.EqualsById(r2);
  }

  /** `Equals` as written accepts two one-literal rules with different ids
      whose fingerprints collide; `EqualsById` rejects them. The md5 digests
      of the texts "-596" and "-617" both begin with the five hex digits
      7a7e3, so the negative literals of packages 596 and 617 are such a
      pair; `fingerprint` below agrees with md5 on those two id lists. */
  method EqualsIgnoresIds() returns (asWritten: bool, corrected: bool)
    ensures asWritten && !corrected
  {
    var p := Package(596, "a", "1.0", 0, []);
    var q := Package(617, "b", "1.0", 0, []);
    var fingerprint: seq<int> -> string := ids => if ids == [-596] || ids == [-617] then "7a7e3" else "";
    var r1 := new Rule([Literal(-596, p)], 0, fingerprint);
    var r2 := new Rule([Literal(-617, q)], 0, fingerprint);
    assert |r1.literals| == 1 && r1.literals[0] in multiset([Literal(-596, p)]);
    assert |r2.literals| == 1 && r2.literals[0] in multiset([Literal(-617, q)]);
    assert Ids(r1.literals) == [-596] && Ids(r2.literals) == [-617];
    asWritten := r1.Equals(r2);
    corrected := r1.EqualsById(r2);
  }
}
