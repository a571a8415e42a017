/**
 * The update policy filter: each dependency of a report is recommended or excluded, first
 * matching rule wins (denylist, then exclusion pattern, then change-type flag), and the result
 * is rendered as a plain-text summary.
 */
module Filter {
  import opened Common
  import opened JsText
  import opened Scanner

  /** The policy object given to the filter; every field may be absent. */
  datatype PolicyOptions = PolicyOptions(
    allowPatch: Option<bool>,
    allowMinor: Option<bool>,
    allowMajor: Option<bool>,
    denylist: Option<seq<string>>,
    excludePatterns: Option<seq<string>>)

  /** The policy the filter applies, with every default filled in. */
  datatype Policy = Policy(
    allowPatch: bool,
    allowMinor: bool,
    allowMajor: bool,
    denylist: seq<string>,
    excludePatterns: seq<string>)

  /**
   * Glob matching of a package name against a pattern. It is supplied by a third-party library,
   * so the filter takes it as a parameter.
   */
  type Matcher = (string, string) -> bool

  datatype Verdict = Recommend | Exclude(reason: string)

  datatype Exclusion = Exclusion(dep: Dependency, reason: string)

  datatype FilterResult = FilterResult(recommended: seq<Dependency>, excluded: seq<Exclusion>)

  const DenylistedReason: string := "Package is denylisted"
  const PatternReason: string := "Matches exclusion pattern"

  /** The constructor: a given value is kept, an absent one takes its default. */
  function NewPolicy(o: PolicyOptions): (p: Policy)
    ensures o.allowPatch.Some? ==> p.allowPatch == o.allowPatch.value
    ensures o.allowMinor.Some? ==> p.allowMinor == o.allowMinor.value
    ensures o.allowMajor.Some? ==> p.allowMajor == o.allowMajor.value
    ensures o.denylist.Some? ==> p.denylist == o.denylist.value
    ensures o.excludePatterns.Some? ==> p.excludePatterns == o.excludePatterns.value
    ensures o.allowPatch.None? ==> p.allowPatch
    ensures o.allowMinor.None? ==> p.allowMinor
    ensures o.allowMajor.None? ==> !p.allowMajor
    ensures o.denylist.None? ==> p.denylist == []
    ensures o.excludePatterns.None? ==> p.excludePatterns == []
  {
    Policy(
      o.allowPatch.GetOr(true),
      o.allowMinor.GetOr(true),
      o.allowMajor.GetOr(false),
      o.denylist.GetOr([]),
      o.excludePatterns.GetOr([]))
  }

  /** With nothing given, patch and minor updates are allowed, major ones are not, and nothing is listed. */
  lemma DefaultPolicy()
    ensures NewPolicy(PolicyOptions(None, None, None, None, None)) == Policy(true, true, false, [], [])
  {
  }

  /** Exact, case-sensitive membership of the package name in the denylist. */
  predicate IsDenylisted(p: Policy, name: string)
    ensures IsDenylisted(p, name) <==> exists i :: 0 <= i < |p.denylist| && p.denylist[i] == name
  {
    name in p.denylist
  }

  /** Some exclusion pattern matches the package name. */
  predicate IsExcluded(p: Policy, matches: Matcher, name: string)
    ensures IsExcluded(p, matches, name) <==>
      exists i :: 0 <= i < |p.excludePatterns| && matches(name, p.excludePatterns[i])
    ensures p.excludePatterns == [] ==> !IsExcluded(p, matches, name)
  {
    exists pattern :: pattern in p.excludePatterns && matches(name, pattern)
  }

  /** The flag of the named change type; any other type is never allowed. */
  predicate IsChangeTypeAllowed(p: Policy, changeType: string)
    ensures IsChangeTypeAllowed(p, changeType) ==> changeType == Patch || changeType == Minor || changeType == Major
  {
    if changeType == Patch then p.allowPatch
    else if changeType == Minor then p.allowMinor
    else if changeType == Major then p.allowMajor
    else false
  }

  /** Only the three known change types can be allowed, each by its own flag. */
  lemma ChangeTypeFlags(p: Policy, changeType: string)
    ensures IsChangeTypeAllowed(p, changeType) ==> changeType in [Patch, Minor, Major]
    ensures IsChangeTypeAllowed(p, Patch) == p.allowPatch
    ensures IsChangeTypeAllowed(p, Minor) == p.allowMinor
    ensures IsChangeTypeAllowed(p, Major) == p.allowMajor
  {
  }

  /** `toUpperCase` of a character in a–z; other characters are kept. */
  function AsciiUpper(c: char): char {
    if 'a' <= c <= 'z' then (c as int - 32) as char else c
  }

  /** The type name with its first character upper-cased. */
  function Capitalize(s: string): (r: string)
    ensures |r| == |s|
    ensures s != "" ==> r[0] == AsciiUpper(s[0]) && r[1..] == s[1..]
    ensures s != "" && 'a' <= s[0] <= 'z' ==> 'A' <= r[0] <= 'Z' && r[0] as int == s[0] as int - 32
    ensures s != "" && !('a' <= s[0] <= 'z') ==> r[0] == s[0]
  {
    if s == "" then "" else [AsciiUpper(s[0])] + s[1..]
  }

  /** The text after the capitalised change type in a policy exclusion. */
  const PolicySuffix := " updates not allowed by policy"

  /** The reason given when the change-type flag blocks a dependency. */
  function PolicyReason(changeType: string): string {
    Capitalize(changeType) + PolicySuffix
  }

  /** A blocked major update reads "Major updates not allowed by policy". */
  lemma MajorReason()
    ensures PolicyReason(Major) == "Major" + PolicySuffix
  {
  }

  /**
   * The rule that applies to one dependency: the denylist wins over everything, an exclusion
   * pattern wins over the change type, and only then does the change-type flag decide.
   */
  function Decide(p: Policy, matches: Matcher, d: Dependency): (v: Verdict)
    ensures IsDenylisted(p, d.package) ==> v == Exclude(DenylistedReason)
    ensures !IsDenylisted(p, d.package) && IsExcluded(p, matches, d.package) ==> v == Exclude(PatternReason)
    ensures !IsDenylisted(p, d.package) && !IsExcluded(p, matches, d.package) ==>
      (v == Recommend <==> IsChangeTypeAllowed(p, d.changeType))
    ensures v.Exclude? && !IsDenylisted(p, d.package) && !IsExcluded(p, matches, d.package) ==>
      v.reason == PolicyReason(d.changeType)
  {
    if IsDenylisted(p, d.package) then Exclude(DenylistedReason)
    else if IsExcluded(p, matches, d.package) then Exclude(PatternReason)
    else if !IsChangeTypeAllowed(p, d.changeType) then Exclude(PolicyReason(d.changeType))
    else Recommend
  }

  /** `filter(report)` on the report's dependencies, built in input order as the source's loop does. */
  function FilterDeps(p: Policy, matches: Matcher, deps: seq<Dependency>): (r: FilterResult)
    ensures |r.recommended| + |r.excluded| == |deps|
    ensures forall i :: 0 <= i < |r.recommended| ==> Decide(p, matches, r.recommended[i]) == Recommend
    ensures forall i :: 0 <= i < |r.excluded| ==>
      Decide(p, matches, r.excluded[i].dep) == Exclude(r.excluded[i].reason)
  {
    if deps == [] then FilterResult([], [])
    else
      var r := FilterDeps(p, matches, deps[..|deps| - 1]);
      var d := deps[|deps| - 1];
      match Decide(p, matches, d)
      case Recommend => FilterResult(r.recommended + [d], r.excluded)
      case Exclude(why) => FilterResult(r.recommended, r.excluded + [Exclusion(d, why)])
  }

  /** `filter(report)`. */
  function FilterReport(p: Policy, matches: Matcher, report: DependencyReport): (r: FilterResult)
    ensures multiset(r.recommended) + multiset(ExcludedDeps(r.excluded)) == multiset(report.dependencies)
  {
    FilterPartitions(p, matches, report.dependencies);
    FilterDeps(p, matches, report.dependencies)
  }

  /** The loop of the source: push onto `recommended` or `excluded` in input order. */
  method FilterLoop(p: Policy, matches: Matcher, deps: seq<Dependency>) returns (r: FilterResult)
    ensures r == FilterDeps(p, matches, deps)
  {
    var recommended: seq<Dependency> := [];
    var excluded: seq<Exclusion> := [];
    var i := 0;
    while i < |deps|
      invariant 0 <= i <= |deps|
      invariant FilterResult(recommended, excluded) == FilterDeps(p, matches, deps[..i])
    {
      var d := deps[i];
      assert deps[..i + 1] == deps[..i] + [d];
      FilterDepsSnoc(p, matches, deps[..i], d);
      if IsDenylisted(p, d.package) {
        excluded := excluded + [Exclusion(d, DenylistedReason)];
      } else if IsExcluded(p, matches, d.package) {
        excluded := excluded + [Exclusion(d, PatternReason)];
      } else if !IsChangeTypeAllowed(p, d.changeType) {
        excluded := excluded + [Exclusion(d, PolicyReason(d.changeType))];
      } else {
        recommended := recommended + [d];
      }
      i := i + 1;
    }
    assert deps[..i] == deps;
    r := FilterResult(recommended, excluded);
  }

  /** One more dependency goes to the end of the list its verdict names. */
  lemma FilterDepsSnoc(p: Policy, matches: Matcher, xs: seq<Dependency>, d: Dependency)
    ensures var r, v := FilterDeps(p, matches, xs), Decide(p, matches, d);
      FilterDeps(p, matches, xs + [d]) ==
        if v.Recommend? then FilterResult(r.recommended + [d], r.excluded)
        else FilterResult(r.recommended, r.excluded + [Exclusion(d, v.reason)])
  {
    assert (xs + [d])[..|xs|] == xs;
  }

  /** The elements of `xs` satisfying `f`, in their order in `xs`. */
  function Keep<T>(xs: seq<T>, f: T -> bool): (r: seq<T>)
    ensures |r| <= |xs|
    ensures forall x :: x in r ==> x in xs && f(x)
  {
    if xs == [] then [] else (if f(xs[0]) then [xs[0]] else []) + Keep(xs[1..], f)
  }

  lemma {:induction false} KeepSnoc<T>(xs: seq<T>, x: T, f: T -> bool)
    ensures Keep(xs + [x], f) == Keep(xs, f) + (if f(x) then [x] else [])
    decreases |xs|
  {
    if xs != [] {
      assert (xs + [x])[1..] == xs[1..] + [x];
      KeepSnoc(xs[1..], x, f);
    } else {
      assert xs + [x] == [x];
    }
  }

  /** Every element of `xs` satisfying `f` is kept. */
  lemma {:induction false} KeepKeeps<T>(xs: seq<T>, f: T -> bool, i: nat)
    requires i < |xs| && f(xs[i])
    ensures xs[i] in Keep(xs, f)
    decreases |xs|
  {
    if i > 0 {
      KeepKeeps(xs[1..], f, i - 1);
    }
  }

  /** Splitting by `f` and by its negation `g` loses and duplicates nothing. */
  lemma {:induction false} KeepPartition<T>(xs: seq<T>, f: T -> bool, g: T -> bool)
    requires forall x :: g(x) == !f(x)
    ensures multiset(Keep(xs, f)) + multiset(Keep(xs, g)) == multiset(xs)
    ensures |Keep(xs, f)| + |Keep(xs, g)| == |xs|
    decreases |xs|
  {
    if xs != [] {
      KeepPartition(xs[1..], f, g);
      assert xs == [xs[0]] + xs[1..];
    }
  }

  /** `a` is `b` with some elements left out, the rest in the same order. */
  ghost predicate IsSubsequence<T>(a: seq<T>, b: seq<T>)
    decreases |b|
  {
    if b == [] then a == []
    else (a != [] && a[0] == b[0] && IsSubsequence(a[1..], b[1..])) || IsSubsequence(a, b[1..])
  }

  lemma {:induction false} KeepIsSubsequence<T>(xs: seq<T>, f: T -> bool)
    ensures IsSubsequence(Keep(xs, f), xs)
    decreases |xs|
  {
    if xs != [] {
      KeepIsSubsequence(xs[1..], f);
      if f(xs[0]) {
        assert Keep(xs, f)[1..] == Keep(xs[1..], f);
      } else {
        assert Keep(xs, f) == Keep(xs[1..], f);
      }
    }
  }

  /** The verdict test for the recommended list. */
  function Passes(p: Policy, matches: Matcher): Dependency -> bool {
    d => Decide(p, matches, d).Recommend?
  }

  /** The verdict test for the excluded list. */
  function Fails(p: Policy, matches: Matcher): Dependency -> bool {
    d => !Decide(p, matches, d).Recommend?
  }

  /** The dependencies of a list of exclusions, in order. */
  function ExcludedDeps(es: seq<Exclusion>): (ds: seq<Dependency>)
    ensures |ds| == |es| && forall i :: 0 <= i < |es| ==> ds[i] == es[i].dep
  {
    seq(|es|, i requires 0 <= i < |es| => es[i].dep)
  }

  lemma ExcludedDepsSnoc(es: seq<Exclusion>, e: Exclusion)
    ensures ExcludedDeps(es + [e]) == ExcludedDeps(es) + [e.dep]
  {
  }

  lemma {:induction false} RecommendedSelected(p: Policy, matches: Matcher, deps: seq<Dependency>)
    ensures FilterDeps(p, matches, deps).recommended == Keep(deps, Passes(p, matches))
    decreases |deps|
  {
    if deps != [] {
      var init, d := deps[..|deps| - 1], deps[|deps| - 1];
      assert deps == init + [d];
      RecommendedSelected(p, matches, init);
      KeepSnoc(init, d, Passes(p, matches));
    }
  }

  lemma {:induction false} ExcludedSelected(p: Policy, matches: Matcher, deps: seq<Dependency>)
    ensures ExcludedDeps(FilterDeps(p, matches, deps).excluded) == Keep(deps, Fails(p, matches))
    decreases |deps|
  {
    if deps != [] {
      var init, d := deps[..|deps| - 1], deps[|deps| - 1];
      assert deps == init + [d];
      ExcludedSelected(p, matches, init);
      KeepSnoc(init, d, Fails(p, matches));
      var r := FilterDeps(p, matches, init);
      if !Decide(p, matches, d).Recommend? {
        ExcludedDepsSnoc(r.excluded, Exclusion(d, Decide(p, matches, d).reason));
      }
    }
  }

  /**
   * The recommended list is exactly the input's dependencies whose verdict is Recommend, and the
   * excluded list is exactly the others, both in input order.
   */
  lemma FilterSelects(p: Policy, matches: Matcher, deps: seq<Dependency>)
    ensures FilterDeps(p, matches, deps).recommended == Keep(deps, Passes(p, matches))
    ensures ExcludedDeps(FilterDeps(p, matches, deps).excluded) == Keep(deps, Fails(p, matches))
  {
    RecommendedSelected(p, matches, deps);
    ExcludedSelected(p, matches, deps);
  }

  /**
   * Every input dependency lands in exactly one of the two lists, nothing is added or lost, and
   * both lists keep the input order.
   */
  lemma FilterPartitions(p: Policy, matches: Matcher, deps: seq<Dependency>)
    ensures var r := FilterDeps(p, matches, deps);
      && multiset(r.recommended) + multiset(ExcludedDeps(r.excluded)) == multiset(deps)
      && IsSubsequence(r.recommended, deps)
      && IsSubsequence(ExcludedDeps(r.excluded), deps)
  {
    FilterSelects(p, matches, deps);
    KeepPartition(deps, Passes(p, matches), Fails(p, matches));
    KeepIsSubsequence(deps, Passes(p, matches));
    KeepIsSubsequence(deps, Fails(p, matches));
  }

  /**
   * Each input dependency appears where its verdict sends it: in `recommended`, or in `excluded`
   * with the verdict's reason.
   */
  lemma FilterPlaces(p: Policy, matches: Matcher, deps: seq<Dependency>, i: nat)
    requires i < |deps|
    ensures var r, v := FilterDeps(p, matches, deps), Decide(p, matches, deps[i]);
      && (v == Recommend ==> deps[i] in r.recommended)
      && (v.Exclude? ==> Exclusion(deps[i], v.reason) in r.excluded)
  {
    var r := FilterDeps(p, matches, deps);
    FilterSelects(p, matches, deps);
    if Decide(p, matches, deps[i]) == Recommend {
      KeepKeeps(deps, Passes(p, matches), i);
    } else {
      KeepKeeps(deps, Fails(p, matches), i);
      var ds := ExcludedDeps(r.excluded);
      var k :| 0 <= k < |ds| && ds[k] == deps[i];
      assert r.excluded[k] == Exclusion(deps[i], Decide(p, matches, deps[i]).reason);
    }
  }

  /** Denylist matching is exact and case-sensitive. */
  lemma DenylistIsExact()
    ensures var p := NewPolicy(PolicyOptions(None, None, None, Some(["express"]), None));
      IsDenylisted(p, "express") && !IsDenylisted(p, "Express") && !IsDenylisted(p, "express-session")
  {
  }

  /** Three dependencies under a policy that blocks majors: the major one is excluded, the others pass in order. */
  lemma MajorBlockedScenario(matches: Matcher)
    ensures var p := NewPolicy(PolicyOptions(None, None, Some(false), None, None));
      var express := Dependency("express", "4.17.1", "4.18.2", "4.18.2", Minor, "dependencies");
      var lodash := Dependency("lodash", "4.17.19", "4.17.21", "4.17.21", Patch, "dependencies");
      var react := Dependency("react", "17.0.2", "18.2.0", "18.2.0", Major, "dependencies");
      FilterDeps(p, matches, [express, lodash, react]) ==
        FilterResult([express, lodash], [Exclusion(react, "Major" + PolicySuffix)])
  {
    var p := NewPolicy(PolicyOptions(None, None, Some(false), None, None));
    var express := Dependency("express", "4.17.1", "4.18.2", "4.18.2", Minor, "dependencies");
    var lodash := Dependency("lodash", "4.17.19", "4.17.21", "4.17.21", Patch, "dependencies");
    var react := Dependency("react", "17.0.2", "18.2.0", "18.2.0", Major, "dependencies");
    assert p == Policy(true, true, false, [], []);
    DecideByType(p, matches, express);
    DecideByType(p, matches, lodash);
    DecideByType(p, matches, react);
    MajorReason();
    FilterThree(p, matches, express, lodash, react, "Major" + PolicySuffix);
  }

  /** With an empty denylist and no patterns, only the change-type flag decides. */
  lemma DecideByType(p: Policy, matches: Matcher, d: Dependency)
    requires p.denylist == [] && p.excludePatterns == []
    ensures Decide(p, matches, d) ==
      if IsChangeTypeAllowed(p, d.changeType) then Recommend else Exclude(PolicyReason(d.changeType))
  {
  }

  lemma FilterThree(p: Policy, matches: Matcher, a: Dependency, b: Dependency, c: Dependency, why: string)
    requires Decide(p, matches, a) == Recommend && Decide(p, matches, b) == Recommend
    requires Decide(p, matches, c) == Exclude(why)
    ensures FilterDeps(p, matches, [a, b, c]) == FilterResult([a, b], [Exclusion(c, why)])
  {
    assert [a][..0] == [];
    assert FilterDeps(p, matches, [a]) == FilterResult([a], []);
    assert [a, b][..1] == [a];
    assert FilterDeps(p, matches, [a, b]) == FilterResult([a, b], []);
    assert [a, b, c][..2] == [a, b];
  }

  // ---------------------------------------------------------------------------------------------
  // getSummary

  /** `current → target`, followed by the latest version when the target is not the latest. */
  function UpdateText(d: Dependency): string {
    if d.wanted == d.latest then d.current + " → " + d.latest
    else d.current + " → " + d.wanted + " (latest: " + d.latest + ")"
  }

  /** The plain arrow form appears exactly when the target is the latest; otherwise the latest is named at the end. */
  lemma UpdateTextShape(d: Dependency)
    ensures UpdateText(d) == d.current + " → " + d.latest <==> d.wanted == d.latest
    ensures d.wanted != d.latest ==> EndsWith(UpdateText(d), " (latest: " + d.latest + ")")
  {
    if d.wanted != d.latest {
      var r := UpdateText(d);
      assert |r| > |d.current + " → " + d.latest|;
      assert r[|r| - |" (latest: " + d.latest + ")"|..] == " (latest: " + d.latest + ")";
    }
  }

  function RecommendedLine(d: Dependency): string {
    "  - " + d.package + ": " + UpdateText(d) + " (" + d.changeType + ")"
  }

  function ExcludedLine(e: Exclusion): string {
    "  - " + e.dep.package + ": " + UpdateText(e.dep) + " (" + e.reason + ")"
  }

  const NothingRecommended: string := "No updates recommended."

  /** The opening block: a header and one line per recommended dependency, or the nothing line. */
  function TopLines(rec: seq<Dependency>): seq<string> {
    if |rec| > 0 then
      ["Recommended updates: " + NatToString(|rec|)] + seq(|rec|, i requires 0 <= i < |rec| => RecommendedLine(rec[i]))
    else [NothingRecommended]
  }

  /** The Excluded block, empty when nothing is excluded. */
  function ExcludedBlock(exc: seq<Exclusion>): seq<string> {
    if |exc| > 0 then
      ["\nExcluded: " + NatToString(|exc|)] + seq(|exc|, i requires 0 <= i < |exc| => ExcludedLine(exc[i]))
    else []
  }

  /** The lines of the summary before they are joined with newlines. */
  function SummaryLines(r: FilterResult): seq<string> {
    TopLines(r.recommended) + ExcludedBlock(r.excluded)
  }

  /**
   * `getSummary(results)`: it opens with the recommended count, or with the nothing line, and
   * when no field holds a line break, splitting it at line breaks gives `SummaryTextLines`.
   */
  function GetSummary(r: FilterResult): (s: string)
    ensures StartsWith(s, TopLines(r.recommended)[0])
    ensures SingleLineResult(r) ==> Split(s, '\n') == SummaryTextLines(r)
  {
    var lines := SummaryLines(r);
    assert lines[0] == TopLines(r.recommended)[0];
    JoinStartsWithFirst(lines, '\n');
    SummarySplits(r);
    Join(lines, '\n')
  }

  /** No field of the dependency holds a line break. */
  predicate SingleLineDep(d: Dependency) {
    '\n' !in d.package && '\n' !in d.current && '\n' !in d.wanted && '\n' !in d.latest && '\n' !in d.changeType
  }

  /** No field of any listed dependency, and no exclusion reason, holds a line break. */
  predicate SingleLineResult(r: FilterResult) {
    && (forall i :: 0 <= i < |r.recommended| ==> SingleLineDep(r.recommended[i]))
    && (forall i :: 0 <= i < |r.excluded| ==> SingleLineDep(r.excluded[i].dep) && '\n' !in r.excluded[i].reason)
  }

  /**
   * The summary's lines as `split('\n')` reads them back: the Excluded header's own leading line
   * break shows up as a blank line before "Excluded: n".
   */
  function SummaryTextLines(r: FilterResult): seq<string> {
    var exc := r.excluded;
    TopLines(r.recommended)
      + (if |exc| > 0 then
           ["", "Excluded: " + NatToString(|exc|)] + seq(|exc|, i requires 0 <= i < |exc| => ExcludedLine(exc[i]))
         else [])
  }

  lemma SummarySplits(r: FilterResult)
    ensures SingleLineResult(r) ==> Split(Join(SummaryLines(r), '\n'), '\n') == SummaryTextLines(r)
  {
    if SingleLineResult(r) {
      SummaryJoinsTextLines(r);
      TextLinesSingle(r);
      SplitJoin(SummaryTextLines(r), '\n');
    }
  }

  /** Joining the summary lines is joining the text lines. */
  lemma SummaryJoinsTextLines(r: FilterResult)
    ensures Join(SummaryLines(r), '\n') == Join(SummaryTextLines(r), '\n')
  {
    var exc := r.excluded;
    var top := TopLines(r.recommended);
    if |exc| > 0 {
      var header := "Excluded: " + NatToString(|exc|);
      var tail := seq(|exc|, i requires 0 <= i < |exc| => ExcludedLine(exc[i]));
      var block, text := ["\n" + header] + tail, ["", header] + tail;
      assert "\nExcluded: " + NatToString(|exc|) == "\n" + header by {
        assert "\nExcluded: " == "\n" + "Excluded: ";
      }
      assert ExcludedBlock(exc) == block;
      assert SummaryLines(r) == top + block;
      assert SummaryTextLines(r) == top + text;
      TopLayout(r.recommended);
      LeadingSeparatorJoin(top, header, tail, '\n');
    } else {
      assert SummaryLines(r) == top;
      assert SummaryTextLines(r) == top;
    }
  }

  lemma UpdateTextSingle(d: Dependency)
    requires SingleLineDep(d)
    ensures '\n' !in UpdateText(d)
  {
  }

  lemma RecommendedLineSingle(d: Dependency)
    requires SingleLineDep(d)
    ensures '\n' !in RecommendedLine(d)
  {
    UpdateTextSingle(d);
  }

  lemma ExcludedLineSingle(e: Exclusion)
    requires SingleLineDep(e.dep) && '\n' !in e.reason
    ensures '\n' !in ExcludedLine(e)
  {
    UpdateTextSingle(e.dep);
  }

  lemma TextLinesSingle(r: FilterResult)
    requires SingleLineResult(r)
    ensures |SummaryTextLines(r)| >= 1
    ensures forall i :: 0 <= i < |SummaryTextLines(r)| ==> '\n' !in SummaryTextLines(r)[i]
  {
    var exc := r.excluded;
    var top := TopLines(r.recommended);
    TopLinesSingle(r.recommended);
    if |exc| > 0 {
      var rest := ["", "Excluded: " + NatToString(|exc|)] + seq(|exc|, i requires 0 <= i < |exc| => ExcludedLine(exc[i]));
      ExcludedTextSingle(r);
      NoSeparatorAppend(top, rest, '\n');
      assert SummaryTextLines(r) == top + rest;
    } else {
      assert SummaryTextLines(r) == top;
    }
  }

  lemma TopLinesSingle(rec: seq<Dependency>)
    requires forall i :: 0 <= i < |rec| ==> SingleLineDep(rec[i])
    ensures |TopLines(rec)| >= 1 && NoSeparator(TopLines(rec), '\n')
  {
    var top := TopLines(rec);
    TopLayout(rec);
    assert '\n' !in NatToString(|rec|);
    forall i | 0 <= i < |top|
      ensures '\n' !in top[i]
    {
      if i > 0 {
        RecommendedLineSingle(rec[i - 1]);
      }
    }
  }

  lemma ExcludedTextSingle(r: FilterResult)
    requires SingleLineResult(r) && |r.excluded| > 0
    ensures var exc := r.excluded;
      NoSeparator(["", "Excluded: " + NatToString(|exc|)] + seq(|exc|, i requires 0 <= i < |exc| => ExcludedLine(exc[i])), '\n')
  {
    var exc := r.excluded;
    var tail := seq(|exc|, i requires 0 <= i < |exc| => ExcludedLine(exc[i]));
    forall i | 0 <= i < |tail|
      ensures '\n' !in tail[i]
    {
      ExcludedLineSingle(exc[i]);
    }
    assert '\n' !in NatToString(|exc|);
    NoSeparatorAppend(["", "Excluded: " + NatToString(|exc|)], tail, '\n');
  }


  lemma TopLayout(rec: seq<Dependency>)
    ensures var lines := TopLines(rec);
      && |lines| == (if |rec| > 0 then 1 + |rec| else 1)
      && (|rec| == 0 ==> lines[0] == NothingRecommended)
      && (|rec| > 0 ==> lines[0] == "Recommended updates: " + NatToString(|rec|))
      && (forall i :: 0 <= i < |rec| ==> lines[1 + i] == RecommendedLine(rec[i]))
  {
    if |rec| > 0 {
      var tail := seq(|rec|, i requires 0 <= i < |rec| => RecommendedLine(rec[i]));
      assert TopLines(rec) == ["Recommended updates: " + NatToString(|rec|)] + tail;
      forall i | 0 <= i < |rec|
        ensures TopLines(rec)[1 + i] == RecommendedLine(rec[i])
      {
        assert tail[i] == RecommendedLine(rec[i]);
      }
    }
  }

  lemma ExcludedLayout(exc: seq<Exclusion>)
    ensures var lines := ExcludedBlock(exc);
      && |lines| == (if |exc| > 0 then 1 + |exc| else 0)
      && (|exc| > 0 ==> lines[0] == "\nExcluded: " + NatToString(|exc|))
      && (forall i :: 0 <= i < |exc| ==> lines[1 + i] == ExcludedLine(exc[i]))
  {
    if |exc| > 0 {
      var tail := seq(|exc|, i requires 0 <= i < |exc| => ExcludedLine(exc[i]));
      assert ExcludedBlock(exc) == ["\nExcluded: " + NatToString(|exc|)] + tail;
      forall i | 0 <= i < |exc|
        ensures ExcludedBlock(exc)[1 + i] == ExcludedLine(exc[i])
      {
        assert tail[i] == ExcludedLine(exc[i]);
      }
    }
  }

  /**
   * The summary has a header line and one line per recommended dependency, in order, or the
   * single line "No updates recommended."; then, only when something is excluded, the Excluded
   * header and one line per exclusion, in order.
   */
  lemma SummaryLayout(r: FilterResult)
    ensures var lines, rec, exc := SummaryLines(r), r.recommended, r.excluded;
      var top := if |rec| > 0 then 1 + |rec| else 1;
      && |lines| == top + (if |exc| > 0 then 1 + |exc| else 0)
      && (|rec| == 0 ==> lines[0] == NothingRecommended)
      && (|rec| > 0 ==> lines[0] == "Recommended updates: " + NatToString(|rec|))
      && (forall i :: 0 <= i < |rec| ==> lines[1 + i] == RecommendedLine(rec[i]))
      && (|exc| > 0 ==> lines[top] == "\nExcluded: " + NatToString(|exc|))
      && (forall i :: 0 <= i < |exc| ==> lines[top + 1 + i] == ExcludedLine(exc[i]))
  {
    SummaryTopLayout(r);
    SummaryBottomLayout(r);
  }

  lemma SummaryTopLayout(r: FilterResult)
    ensures var lines, rec := SummaryLines(r), r.recommended;
      && |lines| == |TopLines(rec)| + |ExcludedBlock(r.excluded)|
      && (|rec| == 0 ==> lines[0] == NothingRecommended)
      && (|rec| > 0 ==> lines[0] == "Recommended updates: " + NatToString(|rec|))
      && (forall i :: 0 <= i < |rec| ==> lines[1 + i] == RecommendedLine(rec[i]))
  {
    var rec := r.recommended;
    var t, e := TopLines(rec), ExcludedBlock(r.excluded);
    TopLayout(rec);
    var lines := SummaryLines(r);
    assert lines == t + e;
    assert lines[0] == t[0];
    forall i | 0 <= i < |rec|
      ensures lines[1 + i] == RecommendedLine(rec[i])
    {
      assert lines[1 + i] == t[1 + i];
    }
  }

  lemma SummaryBottomLayout(r: FilterResult)
    ensures var lines, exc := SummaryLines(r), r.excluded;
      var top := |TopLines(r.recommended)|;
      && top == (if |r.recommended| > 0 then 1 + |r.recommended| else 1)
      && |ExcludedBlock(exc)| == (if |exc| > 0 then 1 + |exc| else 0)
      && |lines| == top + |ExcludedBlock(exc)|
      && (|exc| > 0 ==> lines[top] == "\nExcluded: " + NatToString(|exc|))
      && (forall i :: 0 <= i < |exc| ==> lines[top + 1 + i] == ExcludedLine(exc[i]))
  {
    var exc := r.excluded;
    var t, e := TopLines(r.recommended), ExcludedBlock(exc);
    TopLayout(r.recommended);
    ExcludedLayout(exc);
    var lines := SummaryLines(r);
    assert lines == t + e;
    if |exc| > 0 {
      assert lines[|t|] == e[0];
    }
    forall i | 0 <= i < |exc|
      ensures lines[|t| + 1 + i] == ExcludedLine(exc[i])
    {
      assert lines[|t| + 1 + i] == e[1 + i];
    }
  }

  /** No line of the opening block starts with a newline. */
  lemma TopLineHead(rec: seq<Dependency>, k: int)
    requires 0 <= k < |TopLines(rec)|
    ensures |TopLines(rec)[k]| > 0 && TopLines(rec)[k][0] != '\n'
  {
    TopLayout(rec);
    if k > 0 {
      assert TopLines(rec)[k] == RecommendedLine(rec[k - 1]);
    }
  }

  /** In the Excluded block only the header starts with a newline. */
  lemma ExcludedLineHead(exc: seq<Exclusion>, k: int)
    requires 0 < k < |ExcludedBlock(exc)|
    ensures |ExcludedBlock(exc)[k]| > 0 && ExcludedBlock(exc)[k][0] != '\n'
  {
    ExcludedLayout(exc);
    assert ExcludedBlock(exc)[k] == ExcludedLine(exc[k - 1]);
  }

  /** Apart from the Excluded header, no summary line starts with a newline. */
  lemma SummaryLineHead(r: FilterResult, k: int)
    requires 0 <= k < |SummaryLines(r)|
    requires k != |TopLines(r.recommended)| || |r.excluded| == 0
    ensures |SummaryLines(r)[k]| > 0 && SummaryLines(r)[k][0] != '\n'
  {
    var t, e := TopLines(r.recommended), ExcludedBlock(r.excluded);
    assert SummaryLines(r) == t + e;
    if k < |t| {
      assert SummaryLines(r)[k] == t[k];
      TopLineHead(r.recommended, k);
    } else {
      ExcludedLayout(r.excluded);
      assert SummaryLines(r)[k] == e[k - |t|];
      ExcludedLineHead(r.excluded, k - |t|);
    }
  }

  lemma NotExcludedHeader(l: string)
    requires |l| > 0 && l[0] != '\n'
    ensures !StartsWith(l, "\nExcluded: ")
  {
    assert "\nExcluded: "[0] == '\n';
  }

  /** The Excluded block is present exactly when something was excluded. */
  lemma ExcludedBlockIffExclusions(r: FilterResult)
    ensures (exists k :: 0 <= k < |SummaryLines(r)| && StartsWith(SummaryLines(r)[k], "\nExcluded: ")) <==> |r.excluded| > 0
  {
    var t, e := TopLines(r.recommended), ExcludedBlock(r.excluded);
    var lines := SummaryLines(r);
    assert lines == t + e;
    ExcludedLayout(r.excluded);
    if |r.excluded| > 0 {
      assert lines[|t|] == e[0];
      assert StartsWith(lines[|t|], "\nExcluded: ");
    }
    forall k | 0 <= k < |lines| && (k != |t| || |r.excluded| == 0)
      ensures !StartsWith(lines[k], "\nExcluded: ")
    {
      SummaryLineHead(r, k);
      NotExcludedHeader(lines[k]);
    }
  }

  /** The summary opens with "No updates recommended." exactly when nothing is recommended. */
  lemma SummaryOpening(r: FilterResult)
    ensures StartsWith(GetSummary(r), NothingRecommended) <==> |r.recommended| == 0
  {
    var t, e := TopLines(r.recommended), ExcludedBlock(r.excluded);
    var lines := SummaryLines(r);
    assert lines == t + e;
    TopLayout(r.recommended);
    assert lines[0] == t[0];
    JoinStartsWithFirst(lines, '\n');
    if |r.recommended| > 0 {
      var head := "Recommended updates: " + NatToString(|r.recommended|);
      var summary := GetSummary(r);
      assert lines[0] == head;
      assert summary[..|head|] == head;
      assert summary[0] == summary[..|head|][0];
      FirstCharRulesOut(summary, NothingRecommended);
    }
  }
}
