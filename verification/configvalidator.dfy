/**
 * Start-up validation of the engine's configuration: the checks run in a fixed order and the first
 * one that fails decides the error message; a configuration that passes them all is accepted.
 */
module ConfigValidator {
  import opened Common
  import opened JsText

  /** A value produced by parsing JSON. */
  datatype Json =
    | JNull
    | JBool(b: bool)
    | JNumber(n: real)
    | JString(s: string)
    | JArray(items: seq<Json>)
    | JObject(fields: map<string, Json>)

  /** `value.key`: an own field of an object, or absent (`undefined`). */
  function Get(v: Option<Json>, key: string): (r: Option<Json>)
    ensures r.Some? ==> v.Some? && v.value.JObject? && key in v.value.fields && r.value == v.value.fields[key]
    ensures r.None? ==> !(v.Some? && v.value.JObject? && key in v.value.fields)
  {
    if v.Some? && v.value.JObject? && key in v.value.fields then Some(v.value.fields[key]) else None
  }

  /** JavaScript truthiness; `None` is `undefined`. */
  predicate Truthy(v: Option<Json>) {
    match v
    case None => false
    case Some(JNull) => false
    case Some(JBool(b)) => b
    case Some(JNumber(n)) => n != 0.0
    case Some(JString(s)) => s != ""
    case Some(JArray(_)) => true
    case Some(JObject(_)) => true
  }

  /** The `typeof` operator; `null` and arrays are reported as "object". */
  function TypeOf(v: Option<Json>): string {
    match v
    case None => "undefined"
    case Some(JNull) => "object"
    case Some(JBool(_)) => "boolean"
    case Some(JNumber(_)) => "number"
    case Some(JString(_)) => "string"
    case Some(JArray(_)) => "object"
    case Some(JObject(_)) => "object"
  }

  /** `!v || typeof v !== t` is false: the value is truthy and of type `t`. */
  predicate Present(v: Option<Json>, t: string) {
    Truthy(v) && TypeOf(v) == t
  }

  datatype Validation = Valid | Invalid(message: string)

  const AllowMajorMessage: string :=
    "allowMajor must be false (safe default enforced). "
    + "Major version updates require human review and are blocked automatically."

  /** The error for a denylist entry at index `i`: not a string, or blank. */
  function DenylistEntryMessage(entry: Json, i: nat): string {
    if !entry.JString? then "policy.denylist[" + NatToString(i) + "] must be a string, got " + TypeOf(Some(entry))
    else "policy.denylist[" + NatToString(i) + "] cannot be an empty string"
  }

  /**
   * The error raised for the first offending denylist entry at index `i` or later. The source's
   * `entry.trim() === ''` is written `IsBlank(entry)`, which `Trim`'s contract shows equivalent.
   */
  function CheckDenylist(entries: seq<Json>, i: nat): (r: Option<string>)
    requires i <= |entries|
    ensures r.None? <==> forall j :: i <= j < |entries| ==> IsPackageName(entries[j])
    decreases |entries| - i
  {
    if i == |entries| then None
    else if !entries[i].JString? || IsBlank(entries[i].s) then Some(DenylistEntryMessage(entries[i], i))
    else CheckDenylist(entries, i + 1)
  }

  /** The checks of the target section, as the error they raise. */
  function CheckTarget(config: Option<Json>): (r: Option<string>)
    ensures r.None? <==> TargetOk(config)
  {
    var target := Get(config, "target");
    PresentObject(target);
    PresentString(Get(target, "repository"));
    if !Present(target, "object") then Some("Config must include target section")
    else if !Present(Get(target, "repository"), "string") then
      Some("target.repository is required and must be a string")
    else None
  }

  /** The checks of the governance section, as the error they raise. */
  function CheckGovernance(config: Option<Json>): (r: Option<string>)
    ensures r.None? <==> GovernanceOk(config)
  {
    var governance := Get(config, "governance");
    PresentObject(governance);
    PresentString(Get(governance, "repository"));
    if !Present(governance, "object") then Some("Config must include governance section")
    else if !Present(Get(governance, "repository"), "string") then
      Some("governance.repository is required and must be a string")
    else if !Present(Get(governance, "epicNumber"), "number") then
      Some("governance.epicNumber is required and must be a number")
    else None
  }

  /** The checks of the policy section, as the error they raise. */
  function CheckPolicy(config: Option<Json>): (r: Option<string>)
    ensures r.None? <==> PolicyOk(config)
  {
    var policy := Get(config, "policy");
    PresentObject(policy);
    var denylist, patterns := Get(policy, "denylist"), Get(policy, "excludePatterns");
    if !Present(policy, "object") then Some("Config must include policy section")
    else if Get(policy, "allowMajor") == Some(JBool(true)) then Some(AllowMajorMessage)
    else if denylist.Some? && !denylist.value.JArray? then Some("policy.denylist must be an array of package names")
    else if denylist.Some? && CheckDenylist(denylist.value.items, 0).Some? then CheckDenylist(denylist.value.items, 0)
    else if patterns.Some? && !patterns.value.JArray? then Some("policy.excludePatterns must be an array")
    else None
  }

  /** `validateConfig(config)`: `Valid` for `return true`, `Invalid(m)` for `throw new Error(m)`. */
  function ValidateConfig(config: Option<Json>): (r: Validation)
    ensures r == Valid <==> WellFormed(config)
    ensures !IsObjectLike(config) ==> r == Invalid("Config must be a valid object")
  {
    PresentObject(config);
    if !Present(config, "object") then Invalid("Config must be a valid object")
    else if CheckTarget(config).Some? then Invalid(CheckTarget(config).value)
    else if CheckGovernance(config).Some? then Invalid(CheckGovernance(config).value)
    else if CheckPolicy(config).Some? then Invalid(CheckPolicy(config).value)
    else Valid
  }

  // -----------------------------------------------------------------------------------------------
  // What an accepted configuration looks like, stated field by field

  /** A non-empty string. */
  predicate IsNonEmptyString(v: Option<Json>) {
    v.Some? && v.value.JString? && v.value.s != ""
  }

  /** An object or an array (both have `typeof` "object" and are truthy). */
  predicate IsObjectLike(v: Option<Json>) {
    v.Some? && (v.value.JObject? || v.value.JArray?)
  }

  /** A denylist entry: a string with something other than white space in it. */
  predicate IsPackageName(v: Json) {
    v.JString? && !IsBlank(v.s)
  }

  /** An absent denylist, or an array of package names. */
  predicate DenylistOk(v: Option<Json>) {
    v.None? || (v.value.JArray? && forall j :: 0 <= j < |v.value.items| ==> IsPackageName(v.value.items[j]))
  }

  predicate TargetOk(config: Option<Json>) {
    var target := Get(config, "target");
    IsObjectLike(target) && IsNonEmptyString(Get(target, "repository"))
  }

  predicate GovernanceOk(config: Option<Json>) {
    var governance := Get(config, "governance");
    var epic := Get(governance, "epicNumber");
    && IsObjectLike(governance) && IsNonEmptyString(Get(governance, "repository"))
    && epic.Some? && epic.value.JNumber? && epic.value.n != 0.0
  }

  predicate PolicyOk(config: Option<Json>) {
    var policy := Get(config, "policy");
    && IsObjectLike(policy)
    && Get(policy, "allowMajor") != Some(JBool(true))
    && DenylistOk(Get(policy, "denylist"))
    && (Get(policy, "excludePatterns").None? || Get(policy, "excludePatterns").value.JArray?)
  }

  /** The shape of a configuration `validateConfig` accepts. */
  predicate WellFormed(config: Option<Json>) {
    IsObjectLike(config) && TargetOk(config) && GovernanceOk(config) && PolicyOk(config)
  }

  lemma PresentObject(v: Option<Json>)
    ensures Present(v, "object") <==> IsObjectLike(v)
  {
  }

  lemma PresentString(v: Option<Json>)
    ensures Present(v, "string") <==> IsNonEmptyString(v)
  {
  }

  // -----------------------------------------------------------------------------------------------
  // The checks one by one, in the order `validateConfig` makes them

  /** The eleven checks, in source order. */
  datatype ConfigCheck =
    | IsObject | HasTarget | TargetRepository | HasGovernance | GovernanceRepository | EpicNumber
    | HasPolicy | AllowMajorNotTrue | DenylistIsArray | DenylistEntries | ExcludePatternsIsArray

  function CheckRank(c: ConfigCheck): nat {
    match c
    case IsObject => 0
    case HasTarget => 1
    case TargetRepository => 2
    case HasGovernance => 3
    case GovernanceRepository => 4
    case EpicNumber => 5
    case HasPolicy => 6
    case AllowMajorNotTrue => 7
    case DenylistIsArray => 8
    case DenylistEntries => 9
    case ExcludePatternsIsArray => 10
  }

  /** The entries of an array denylist; none for an absent or non-array one. */
  function DenylistItems(config: Option<Json>): seq<Json> {
    var d := Get(Get(config, "policy"), "denylist");
    if d.Some? && d.value.JArray? then d.value.items else []
  }

  /** The configuration passes check `c`, judged on its own. */
  predicate Passes(c: ConfigCheck, config: Option<Json>) {
    var target, governance, policy := Get(config, "target"), Get(config, "governance"), Get(config, "policy");
    match c
    case IsObject => IsObjectLike(config)
    case HasTarget => IsObjectLike(target)
    case TargetRepository => IsNonEmptyString(Get(target, "repository"))
    case HasGovernance => IsObjectLike(governance)
    case GovernanceRepository => IsNonEmptyString(Get(governance, "repository"))
    case EpicNumber =>
      var epic := Get(governance, "epicNumber");
      epic.Some? && epic.value.JNumber? && epic.value.n != 0.0
    case HasPolicy => IsObjectLike(policy)
    case AllowMajorNotTrue => Get(policy, "allowMajor") != Some(JBool(true))
    case DenylistIsArray => Get(policy, "denylist").None? || Get(policy, "denylist").value.JArray?
    case DenylistEntries =>
      var items := DenylistItems(config);
      forall j :: 0 <= j < |items| ==> IsPackageName(items[j])
    case ExcludePatternsIsArray => Get(policy, "excludePatterns").None? || Get(policy, "excludePatterns").value.JArray?
  }

  /** `c` fails and every check made before it passes. */
  predicate FirstFailing(c: ConfigCheck, config: Option<Json>) {
    !Passes(c, config) && forall q :: CheckRank(q) < CheckRank(c) ==> Passes(q, config)
  }

  /**
   * `m` is the error check `c` raises: a fixed text, or for the denylist entries the message
   * naming the first bad entry by its index.
   */
  predicate Reports(c: ConfigCheck, config: Option<Json>, m: string) {
    match c
    case IsObject => m == "Config must be a valid object"
    case HasTarget => m == "Config must include target section"
    case TargetRepository => m == "target.repository is required and must be a string"
    case HasGovernance => m == "Config must include governance section"
    case GovernanceRepository => m == "governance.repository is required and must be a string"
    case EpicNumber => m == "governance.epicNumber is required and must be a number"
    case HasPolicy => m == "Config must include policy section"
    case AllowMajorNotTrue => m == AllowMajorMessage
    case DenylistIsArray => m == "policy.denylist must be an array of package names"
    case DenylistEntries =>
      var items := DenylistItems(config);
      exists k :: 0 <= k < |items| && !IsPackageName(items[k]) && (forall j :: 0 <= j < k ==> IsPackageName(items[j]))
        && m == DenylistEntryMessage(items[k], k)
    case ExcludePatternsIsArray => m == "policy.excludePatterns must be an array"
  }

  /**
   * The checks run in a fixed order and the first failure determines the error: a configuration
   * is accepted exactly when it passes every check, and otherwise the error raised is that of the
   * earliest check it fails.
   */
  lemma FirstFailingCheckReported(config: Option<Json>)
    ensures ValidateConfig(config) == Valid <==> forall c :: Passes(c, config)
    ensures ValidateConfig(config).Invalid? ==> exists c :: FirstFailing(c, config)
    ensures forall c :: FirstFailing(c, config) ==>
      ValidateConfig(config).Invalid? && Reports(c, config, ValidateConfig(config).message)
  {
    AllPassIffWellFormed(config);
    if ValidateConfig(config).Invalid? {
      var c := EarliestFailing(config);
      assert FirstFailing(c, config);
    }
    forall c | FirstFailing(c, config)
      ensures ValidateConfig(config).Invalid? && Reports(c, config, ValidateConfig(config).message)
    {
      FirstFailingReports(config, c);
    }
  }

  /** Passing every check is being well formed. */
  lemma AllPassIffWellFormed(config: Option<Json>)
    ensures (forall c :: Passes(c, config)) <==> WellFormed(config)
  {
    if WellFormed(config) {
      forall c ensures Passes(c, config) {
        if c == DenylistEntries {
          var d := Get(Get(config, "policy"), "denylist");
          assert d.None? || d.value.JArray?;
        }
      }
    } else {
      assert !Passes(IsObject, config) || !Passes(HasTarget, config) || !Passes(TargetRepository, config)
        || !Passes(HasGovernance, config) || !Passes(GovernanceRepository, config) || !Passes(EpicNumber, config)
        || !Passes(HasPolicy, config) || !Passes(AllowMajorNotTrue, config) || !Passes(DenylistIsArray, config)
        || !Passes(DenylistEntries, config) || !Passes(ExcludePatternsIsArray, config);
    }
  }

  /** The earliest check a configuration that is not well formed fails. */
  function EarliestFailing(config: Option<Json>): (c: ConfigCheck)
    requires !WellFormed(config)
    ensures FirstFailing(c, config)
  {
    AllPassIffWellFormed(config);
    if !Passes(IsObject, config) then IsObject
    else if !Passes(HasTarget, config) then HasTarget
    else if !Passes(TargetRepository, config) then TargetRepository
    else if !Passes(HasGovernance, config) then HasGovernance
    else if !Passes(GovernanceRepository, config) then GovernanceRepository
    else if !Passes(EpicNumber, config) then EpicNumber
    else if !Passes(HasPolicy, config) then HasPolicy
    else if !Passes(AllowMajorNotTrue, config) then AllowMajorNotTrue
    else if !Passes(DenylistIsArray, config) then DenylistIsArray
    else if !Passes(DenylistEntries, config) then DenylistEntries
    else ExcludePatternsIsArray
  }

  /** The error raised when `c` is the first check to fail. */
  lemma FirstFailingReports(config: Option<Json>, c: ConfigCheck)
    requires FirstFailing(c, config)
    ensures ValidateConfig(config).Invalid? && Reports(c, config, ValidateConfig(config).message)
  {
    PresentObject(config);
    match c
    case IsObject =>
    case HasTarget => TargetFailureReported(config, c);
    case TargetRepository => TargetFailureReported(config, c);
    case HasGovernance => GovernanceFailureReported(config, c);
    case GovernanceRepository => GovernanceFailureReported(config, c);
    case EpicNumber => GovernanceFailureReported(config, c);
    case _ => PolicyFailureReported(config, c);
  }

  lemma TargetFailureReported(config: Option<Json>, c: ConfigCheck)
    requires c == HasTarget || c == TargetRepository
    requires FirstFailing(c, config)
    ensures IsObjectLike(config) && CheckTarget(config).Some? && Reports(c, config, CheckTarget(config).value)
  {
    assert Passes(IsObject, config);
    PresentObject(Get(config, "target"));
    PresentString(Get(Get(config, "target"), "repository"));
    if c == TargetRepository {
      assert Passes(HasTarget, config);
    }
  }

  lemma GovernanceFailureReported(config: Option<Json>, c: ConfigCheck)
    requires c == HasGovernance || c == GovernanceRepository || c == EpicNumber
    requires FirstFailing(c, config)
    ensures IsObjectLike(config) && TargetOk(config)
    ensures CheckGovernance(config).Some? && Reports(c, config, CheckGovernance(config).value)
  {
    assert Passes(IsObject, config) && Passes(HasTarget, config) && Passes(TargetRepository, config);
    PresentObject(Get(config, "governance"));
    PresentString(Get(Get(config, "governance"), "repository"));
    if c != HasGovernance {
      assert Passes(HasGovernance, config);
    }
    if c == EpicNumber {
      assert Passes(GovernanceRepository, config);
    }
  }

  lemma PolicyFailureReported(config: Option<Json>, c: ConfigCheck)
    requires CheckRank(c) >= 6
    requires FirstFailing(c, config)
    ensures IsObjectLike(config) && TargetOk(config) && GovernanceOk(config)
    ensures CheckPolicy(config).Some? && Reports(c, config, CheckPolicy(config).value)
  {
    assert Passes(IsObject, config) && Passes(HasTarget, config) && Passes(TargetRepository, config);
    assert Passes(HasGovernance, config) && Passes(GovernanceRepository, config) && Passes(EpicNumber, config);
    PolicyCheckReported(config, c);
  }

  /** Within the policy section, the first failing check decides the error. */
  lemma PolicyCheckReported(config: Option<Json>, c: ConfigCheck)
    requires CheckRank(c) >= 6 && !Passes(c, config)
    requires forall q :: 6 <= CheckRank(q) < CheckRank(c) ==> Passes(q, config)
    ensures CheckPolicy(config).Some? && Reports(c, config, CheckPolicy(config).value)
  {
    var policy := Get(config, "policy");
    PresentObject(policy);
    if c == HasPolicy {
    } else {
      assert Passes(HasPolicy, config);
      if c == AllowMajorNotTrue {
      } else {
        assert Passes(AllowMajorNotTrue, config);
        if c == DenylistIsArray {
        } else {
          assert Passes(DenylistIsArray, config);
          if c == DenylistEntries {
            DenylistEntriesFailureReported(config);
          } else {
            assert Passes(DenylistEntries, config);
            var d := Get(policy, "denylist");
            assert d.Some? ==> CheckDenylist(d.value.items, 0).None?;
          }
        }
      }
    }
  }

  lemma DenylistEntriesFailureReported(config: Option<Json>)
    requires IsObjectLike(Get(config, "policy"))
    requires Passes(AllowMajorNotTrue, config) && Passes(DenylistIsArray, config) && !Passes(DenylistEntries, config)
    ensures CheckPolicy(config).Some? && Reports(DenylistEntries, config, CheckPolicy(config).value)
  {
    PresentObject(Get(config, "policy"));
    var items := DenylistItems(config);
    var k := FirstBadEntry(items, 0);
    FirstBadDenylistEntry(items, 0, k);
  }

  /** A list with a bad entry from `i` on has a first one. */
  lemma {:induction false} FirstBadEntry(items: seq<Json>, i: nat) returns (k: nat)
    requires i <= |items| && exists j :: i <= j < |items| && !IsPackageName(items[j])
    ensures i <= k < |items| && !IsPackageName(items[k]) && forall j :: i <= j < k ==> IsPackageName(items[j])
    decreases |items| - i
  {
    if !IsPackageName(items[i]) {
      k := i;
    } else {
      k := FirstBadEntry(items, i + 1);
    }
  }

  // -----------------------------------------------------------------------------------------------
  // Consequences

  /** The error names the first offending entry, by its index. */
  lemma {:induction false} FirstBadDenylistEntry(entries: seq<Json>, i: nat, k: nat)
    requires i <= k < |entries|
    requires forall j :: i <= j < k ==> IsPackageName(entries[j])
    requires !IsPackageName(entries[k])
    ensures CheckDenylist(entries, i) == Some(DenylistEntryMessage(entries[k], k))
    decreases k - i
  {
    if i < k {
      assert IsPackageName(entries[i]);
      FirstBadDenylistEntry(entries, i + 1, k);
    }
  }

  /** The configuration with one field of its `policy` object replaced. */
  function WithPolicyField(config: Option<Json>, key: string, v: Json): (r: Option<Json>)
    requires config.Some? && config.value.JObject?
    requires Get(config, "policy").Some? && Get(config, "policy").value.JObject?
    ensures r.Some? && r.value.JObject?
  {
    var policy := Get(config, "policy").value;
    Some(JObject(config.value.fields["policy" := JObject(policy.fields[key := v])]))
  }

  /** Replacing a field of `policy` leaves the other sections as they were. */
  lemma WithPolicyFieldKeepsSections(config: Option<Json>, key: string, v: Json)
    requires config.Some? && config.value.JObject?
    requires Get(config, "policy").Some? && Get(config, "policy").value.JObject?
    ensures var c := WithPolicyField(config, key, v);
      && Get(c, "target") == Get(config, "target")
      && Get(c, "governance") == Get(config, "governance")
      && IsObjectLike(c) && IsObjectLike(Get(c, "policy"))
      && Get(Get(c, "policy"), key) == Some(v)
      && forall other :: other != key ==> Get(Get(c, "policy"), other) == Get(Get(config, "policy"), other)
  {
  }

  /**
   * The safe default: in an otherwise valid configuration, `allowMajor` set to boolean `true`
   * is rejected with its own message, and any other value is accepted.
   */
  lemma AllowMajorOnlyStrictTrueRejected(config: Option<Json>, v: Json)
    requires WellFormed(config) && config.value.JObject? && Get(config, "policy").value.JObject?
    ensures v == JBool(true) ==> ValidateConfig(WithPolicyField(config, "allowMajor", v)) == Invalid(AllowMajorMessage)
    ensures v != JBool(true) ==> ValidateConfig(WithPolicyField(config, "allowMajor", v)) == Valid
  {
    var c := WithPolicyField(config, "allowMajor", v);
    WithPolicyFieldKeepsSections(config, "allowMajor", v);
    PresentObject(Get(c, "policy"));
  }

  /** Whatever else a configuration holds, `allowMajor: true` in its policy makes it invalid. */
  lemma AllowMajorTrueNeverValid(config: Option<Json>)
    requires Get(Get(config, "policy"), "allowMajor") == Some(JBool(true))
    ensures ValidateConfig(config).Invalid?
  {
  }

  /** The entries of `excludePatterns` are not checked: any array is accepted there. */
  lemma ExcludePatternsEntriesUnchecked(config: Option<Json>, items: seq<Json>)
    requires WellFormed(config) && config.value.JObject? && Get(config, "policy").value.JObject?
    ensures ValidateConfig(WithPolicyField(config, "excludePatterns", JArray(items))) == Valid
  {
    var c := WithPolicyField(config, "excludePatterns", JArray(items));
    WithPolicyFieldKeepsSections(config, "excludePatterns", JArray(items));
  }

  /** An `epicNumber` of 0 is falsy, so it is reported as missing. */
  lemma EpicNumberZeroRejected(config: Option<Json>)
    requires IsObjectLike(config) && TargetOk(config)
    requires IsObjectLike(Get(config, "governance")) && IsNonEmptyString(Get(Get(config, "governance"), "repository"))
    requires Get(Get(config, "governance"), "epicNumber") == Some(JNumber(0.0))
    ensures ValidateConfig(config) == Invalid("governance.epicNumber is required and must be a number")
  {
    PresentObject(config);
    PresentObject(Get(config, "governance"));
    PresentString(Get(Get(config, "governance"), "repository"));
  }
}
