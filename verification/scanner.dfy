/**
 * The pure parts of the dependency scanner: classifying a version bump as patch, minor or major,
 * and turning the decoded `npm outdated --json` report into Dependency records.
 */
module Scanner {
  import opened Common
  import opened JsText
  import opened JsNumber

  const Patch: string := "patch"
  const Minor: string := "minor"
  const Major: string := "major"

  /** One outdated package. `changeType` is one of the three names above when the scanner made it. */
  datatype Dependency = Dependency(
    package: string,
    current: string,
    wanted: string,
    latest: string,
    changeType: string,
    location: string)

  /** The result of one scan: when, which repository, which ecosystem, and the outdated packages in report order. */
  datatype DependencyReport = DependencyReport(
    scannedAt: string,
    repository: string,
    ecosystem: string,
    dependencies: seq<Dependency>)

  /** Removes one leading `v`, `^` or `~`, and nothing else. */
  function StripRangePrefix(v: string): (r: string)
    ensures |v| > 0 && v[0] in "v^~" ==> r == v[1..]
    ensures !(|v| > 0 && v[0] in "v^~") ==> r == v
  {
    if |v| > 0 && v[0] in "v^~" then v[1..] else v
  }

  /**
   * The i-th dot-separated component as a Number; a missing component is `undefined`, which
   * compares like NaN.
   */
  function Component(v: string, i: nat): Number {
    var parts := Split(v, '.');
    if i < |parts| then ToNumber(parts[i]) else NaN
  }

  /**
   * The change type of a bump from `current` to `target`: major when the major component grows,
   * otherwise minor when the minor component grows, otherwise patch.
   */
  function DetermineChangeType(current: string, target: string): (r: string)
    ensures r == Patch || r == Minor || r == Major
  {
    var c := StripRangePrefix(current);
    var t := StripRangePrefix(target);
    if Greater(Component(t, 0), Component(c, 0)) then Major
    else if Greater(Component(t, 1), Component(c, 1)) then Minor
    else if Greater(Component(t, 2), Component(c, 2)) then Patch
    else Patch
  }

  /**
   * The decision rules: major iff the major component grows; minor iff it does not and the minor
   * component grows (whatever the majors are); patch otherwise, including every tie and every
   * comparison against NaN.
   */
  lemma ChangeTypeRules(current: string, target: string)
    ensures var c, t := StripRangePrefix(current), StripRangePrefix(target);
      && (DetermineChangeType(current, target) == Major <==> Greater(Component(t, 0), Component(c, 0)))
      && (DetermineChangeType(current, target) == Minor <==>
           !Greater(Component(t, 0), Component(c, 0)) && Greater(Component(t, 1), Component(c, 1)))
      && (DetermineChangeType(current, target) == Patch <==>
           !Greater(Component(t, 0), Component(c, 0)) && !Greater(Component(t, 1), Component(c, 1)))
  {
  }

  /** The release `major.minor.patch` written the usual way. */
  function Release(major: nat, minor: nat, patch: nat): string {
    Join([NatToString(major), NatToString(minor), NatToString(patch)], '.')
  }

  lemma {:induction false} ReleaseComponents(major: nat, minor: nat, patch: nat)
    ensures Component(Release(major, minor, patch), 0) == Finite(major as real)
    ensures Component(Release(major, minor, patch), 1) == Finite(minor as real)
    ensures Component(Release(major, minor, patch), 2) == Finite(patch as real)
  {
    var parts := [NatToString(major), NatToString(minor), NatToString(patch)];
    forall i | 0 <= i < |parts|
      ensures '.' !in parts[i]
    {
      assert AllDigits(parts[i]);
    }
    SplitJoin(parts, '.');
    NumberOfNatToString(major);
    NumberOfNatToString(minor);
    NumberOfNatToString(patch);
  }

  /** The classification depends on the versions only through their numeric components. */
  lemma ChangeTypeFromComponents(current: string, target: string, a: real, b: real, x: real, y: real)
    requires Component(StripRangePrefix(current), 0) == Finite(a)
    requires Component(StripRangePrefix(current), 1) == Finite(b)
    requires Component(StripRangePrefix(target), 0) == Finite(x)
    requires Component(StripRangePrefix(target), 1) == Finite(y)
    ensures DetermineChangeType(current, target) == if x > a then Major else if y > b then Minor else Patch
  {
  }

  /**
   * On ordinary releases the classification reads the numbers: major iff the major number grows,
   * minor iff it does not grow but the minor number does (even when the major number drops),
   * patch otherwise.
   */
  lemma ChangeTypeOfReleases(a: nat, b: nat, c: nat, x: nat, y: nat, z: nat)
    ensures DetermineChangeType(Release(a, b, c), Release(x, y, z)) ==
      if x > a then Major else if y > b then Minor else Patch
  {
    var cur, tgt := Release(a, b, c), Release(x, y, z);
    assert IsDigit(NatToString(a)[0]);
    assert IsDigit(NatToString(x)[0]);
    assert StripRangePrefix(cur) == cur;
    assert StripRangePrefix(tgt) == tgt;
    ReleaseComponents(a, b, c);
    ReleaseComponents(x, y, z);
    ChangeTypeFromComponents(cur, tgt, a as real, b as real, x as real, y as real);
  }

  /** Changing the versions without changing their stripped forms keeps the classification. */
  lemma ChangeTypeOfStripped(c1: string, c2: string, t1: string, t2: string)
    requires StripRangePrefix(c1) == StripRangePrefix(c2)
    requires StripRangePrefix(t1) == StripRangePrefix(t2)
    ensures DetermineChangeType(c1, t1) == DetermineChangeType(c2, t2)
  {
  }

  /**
   * A single leading `v`, `^` or `~` on either version does not change the classification; only
   * one is removed, so a version that itself starts with such a character is not covered.
   */
  lemma PrefixIgnored(p: char, q: char, current: string, target: string)
    requires p in "v^~" && q in "v^~"
    requires !(|current| > 0 && current[0] in "v^~")
    requires !(|target| > 0 && target[0] in "v^~")
    ensures DetermineChangeType([p] + current, [q] + target) == DetermineChangeType(current, target)
  {
    assert ([p] + current)[1..] == current;
    assert ([q] + target)[1..] == target;
    ChangeTypeOfStripped([p] + current, current, [q] + target, target);
  }

  /**
   * The fields of a per-package object of the report that the parser reads; each may be absent.
   * `depType` is the object's `type` key (the dependency kind, such as "devDependencies"), which
   * becomes the Dependency's `location`.
   */
  datatype OutdatedInfo = OutdatedInfo(
    current: Option<string>,
    wanted: Option<string>,
    latest: Option<string>,
    depType: Option<string>)

  /**
   * The result of `JSON.parse` on the report: a syntax failure with the parser's message, or the
   * entries of the top-level object in order.
   */
  datatype Decoded = Malformed(cause: string) | Entries(entries: seq<(string, OutdatedInfo)>)

  const ParseFailure: string := "Failed to parse npm outdated output"

  /**
   * The message of the TypeError raised when a missing version is dereferenced
   * (`undefined.replace`), in the wording of Node's V8 engine.
   */
  const MissingVersionCause: string := "Cannot read properties of undefined (reading 'replace')"

  /** The error rethrown by the parser: the fixed prefix, a colon, and the cause's message. */
  function ParseError(cause: string): (m: string)
    ensures StartsWith(m, ParseFailure + ": ")
    ensures |m| == |ParseFailure + ": "| + |cause| && m[|ParseFailure + ": "|..] == cause
  {
    var head := ParseFailure + ": ";
    assert (head + cause)[..|head|] == head;
    head + cause
  }

  /** JavaScript truthiness of an optional string: present and non-empty. */
  predicate Truthy(o: Option<string>) {
    o.Some? && o.value != ""
  }

  /** JavaScript `a || b` on optional strings. */
  function Or(a: Option<string>, b: Option<string>): (r: Option<string>)
    ensures Truthy(a) ==> r == a
    ensures !Truthy(a) ==> r == b
  {
    if Truthy(a) then a else b
  }

  /** The version the update aims at: `wanted`, falling back to `latest`. */
  function TargetVersion(info: OutdatedInfo): (r: Option<string>)
    ensures r == (if Truthy(info.wanted) then info.wanted else info.latest)
  {
    Or(info.wanted, info.latest)
  }

  /**
   * An entry can be converted when it has a current version and a target version: otherwise the
   * source dereferences `undefined` while classifying it.
   */
  predicate Convertible(info: OutdatedInfo) {
    info.current.Some? && TargetVersion(info).Some?
  }

  /** The Dependency record of one convertible entry. */
  function ToDependency(name: string, info: OutdatedInfo): (d: Dependency)
    requires Convertible(info)
    ensures d.package == name
    ensures d.wanted == TargetVersion(info).value
    ensures d.current == (if Truthy(info.current) then info.current.value else "unknown")
    ensures d.latest == (if Truthy(info.latest) then info.latest.value else "unknown")
    ensures d.location == (if Truthy(info.depType) then info.depType.value else "dependencies")
    ensures d.changeType == DetermineChangeType(info.current.value, TargetVersion(info).value)
  {
    Dependency(
      name,
      Or(info.current, Some("unknown")).value,
      TargetVersion(info).value,
      Or(info.latest, Some("unknown")).value,
      DetermineChangeType(info.current.value, TargetVersion(info).value),
      Or(info.depType, Some("dependencies")).value)
  }

  /** Every entry of the decoded report can be converted. */
  predicate AllConvertible(entries: seq<(string, OutdatedInfo)>) {
    forall i :: 0 <= i < |entries| ==> Convertible(entries[i].1)
  }

  /** Converts the entries in order; a single inconvertible entry makes the whole parse fail. */
  function ConvertEntries(entries: seq<(string, OutdatedInfo)>): (r: Result<seq<Dependency>, string>)
    ensures r.Ok? <==> AllConvertible(entries)
    ensures r.Err? ==> r.error == ParseError(MissingVersionCause)
    ensures r.Ok? ==> |r.value| == |entries|
    ensures r.Ok? ==> forall i :: 0 <= i < |entries| ==> r.value[i] == ToDependency(entries[i].0, entries[i].1)
  {
    if AllConvertible(entries) then
      Ok(seq(|entries|, i requires 0 <= i < |entries| => ToDependency(entries[i].0, entries[i].1)))
    else Err(ParseError(MissingVersionCause))
  }

  /**
   * `parseNpmOutdated`: a blank report is an empty list; otherwise the decoded report gives one
   * Dependency per entry in order, and a syntax failure or an inconvertible entry fails the parse
   * with an error that carries the cause's message.
   */
  function ParseNpmOutdated(output: string, decoded: Decoded): (r: Result<seq<Dependency>, string>)
    ensures IsBlank(output) ==> r == Ok([])
    ensures !IsBlank(output) && decoded.Malformed? ==> r == Err(ParseError(decoded.cause))
    ensures r.Err? ==> StartsWith(r.error, ParseFailure + ": ")
    ensures !IsBlank(output) && decoded.Entries? ==>
      (r.Ok? <==> AllConvertible(decoded.entries))
    ensures r.Ok? && !IsBlank(output) ==> |r.value| == |decoded.entries|
    ensures r.Ok? && !IsBlank(output) ==> forall i :: 0 <= i < |r.value| ==>
      r.value[i] == ToDependency(decoded.entries[i].0, decoded.entries[i].1)
  {
    if output == "" || Trim(output) == "" then Ok([])
    else match decoded
      case Malformed(cause) => Err(ParseError(cause))
      case Entries(entries) => ConvertEntries(entries)
  }

  /** The report `{}` decodes to no entries and parses to an empty list. */
  lemma EmptyObjectParsesEmpty()
    ensures ParseNpmOutdated("{}", Entries([])) == Ok([])
  {
  }

  /**
   * The change type is measured against `wanted`, not `latest`: 4.17.1 with wanted 4.17.3 and
   * latest 4.18.2 is a patch.
   */
  lemma ChangeTypeUsesWanted()
    ensures ToDependency("express",
      OutdatedInfo(Some(Release(4, 17, 1)), Some(Release(4, 17, 3)), Some(Release(4, 18, 2)), Some("dependencies"))
      ).changeType == Patch
  {
    ChangeTypeOfReleases(4, 17, 1, 4, 17, 3);
  }
}
