/**
 * Error categorization: an error is sorted into one of seven categories by the first rule that
 * matches it, and the category decides whether the error is transient (worth retrying) or
 * permanent, which message is shown and which fix is suggested.
 */
module ErrorCategorizer {
  import opened Common
  import opened JsText

  /**
   * The fields of a thrown error that the categorizer reads. Each may be absent; `status` is the
   * HTTP status when it is a number, `code` the system error code.
   */
  datatype ErrorRec = ErrorRec(message: Option<string>, status: Option<int>, code: Option<string>)

  datatype ErrorType = Transient | Permanent

  datatype Category = RateLimit | Network | ServiceUnavailable | Auth | NotFound | Config | Unknown

  datatype ErrorInfo = ErrorInfo(errorType: ErrorType, category: Category, message: string, fix: string)

  const NetworkCodes: seq<string> := ["ETIMEDOUT", "ECONNRESET", "ENOTFOUND"]

  const UnknownMessage: string := "Unknown error occurred"

  /** The fix suggested for an error no rule recognises. */
  const UnknownFix: string := "Check " + "logs for details and verify configuration"

  /** `error.message?.includes(t)`: false when there is no message. */
  predicate MessageHas(e: ErrorRec, t: string) {
    e.message.Some? && Contains(e.message.value, t)
  }

  predicate HasStatus(e: ErrorRec, n: int) {
    e.status == Some(n)
  }

  /**
   * The suggested fix of each category. The fix of a retried category opens with "Retry" or
   * "Wait"; every other fix opens with "Check" or "Verify".
   */
  function FixFor(c: Category): (f: string)
    ensures |f| > 0 && (IsTransientCategory(c) <==> f[0] == 'R' || f[0] == 'W')
  {
    match c
    case RateLimit => "Wait " + "and retry automatically"
    case Network => "Retry " + "automatically after brief delay"
    case ServiceUnavailable => "Retry " + "automatically - service should recover"
    case Auth => "Check " + "ARM_TOKEN secret in repository settings"
    case NotFound => "Verify " + "repository names in arm.config.json"
    case Config => "Check " + "arm.config.json for required fields and valid values"
    case Unknown => UnknownFix
  }

  /** The categories that are retried. */
  predicate IsTransientCategory(c: Category) {
    c == RateLimit || c == Network || c == ServiceUnavailable
  }

  /** The category of `categorizeError(error)`: the rules are tried in the source's order and the first that matches decides. */
  function Rule(e: ErrorRec): (c: Category)
    ensures c == Network ==> e.code.Some? && e.code.value in NetworkCodes
    ensures c == ServiceUnavailable ==> e.status == Some(502) || e.status == Some(503)
  {
    if MessageHas(e, "rate limit") || HasStatus(e, 429) then RateLimit
    else if e.code.Some? && e.code.value in NetworkCodes then Network
    else if HasStatus(e, 502) || HasStatus(e, 503) then ServiceUnavailable
    else if HasStatus(e, 401) || HasStatus(e, 403) || MessageHas(e, "Bad credentials")
      || MessageHas(e, "Unauthorized") || MessageHas(e, "authentication") then Auth
    else if HasStatus(e, 404) || MessageHas(e, "Not Found") then NotFound
    else if MessageHas(e, "config") || MessageHas(e, "configuration") || MessageHas(e, "invalid") then Config
    else Unknown
  }

  /** Rate-limit, network and service-unavailable errors are transient; all others are permanent. */
  function TypeFor(c: Category): (t: ErrorType)
    ensures t == Transient <==> IsTransientCategory(c)
  {
    if c == RateLimit || c == Network || c == ServiceUnavailable then Transient else Permanent
  }

  /** The message shown for an error of category `c`. */
  function MessageFor(c: Category, e: ErrorRec): (m: string)
    requires c == Network ==> e.code.Some?
    requires c == ServiceUnavailable ==> e.status.Some? && e.status.value >= 0
    ensures m != ""
    ensures c == ServiceUnavailable ==> Contains(m, NatToString(e.status.value))
  {
    match c
    case RateLimit => "GitHub API rate limit exceeded"
    case Network => "Network error: " + e.code.value
    case ServiceUnavailable =>
      ContainsInfix("GitHub service temporarily unavailable (HTTP ", NatToString(e.status.value), ")");
      "GitHub service temporarily unavailable (HTTP " + NatToString(e.status.value) + ")"
    case Auth => "Authentication failed"
    case NotFound => "Repository or resource not found"
    case Config => "Invalid configuration"
    case Unknown => if e.message.Some? && e.message.value != "" then e.message.value else UnknownMessage
  }

  /** `categorizeError(error)`. */
  function Categorize(e: ErrorRec): (r: ErrorInfo)
    ensures r.category == Rule(e)
    ensures r.errorType == Transient <==> IsTransientCategory(r.category)
    ensures r.fix == FixFor(r.category)
  {
    var c := Rule(e);
    ErrorInfo(TypeFor(c), c, MessageFor(c, e), FixFor(c))
  }

  /**
   * The message of each category that reports details: a network error names its code, a
   * service-unavailable error its status, and an unknown error keeps its own non-empty message.
   */
  lemma CategoryMessage(e: ErrorRec)
    ensures Categorize(e).category == Network ==> Categorize(e).message == "Network error: " + e.code.value
    ensures Categorize(e).category == ServiceUnavailable ==>
      Contains(Categorize(e).message, NatToString(e.status.value))
    ensures Categorize(e).category == Unknown && e.message.Some? && e.message.value != "" ==>
      Categorize(e).message == e.message.value
    ensures Categorize(e).category == Unknown && (e.message.None? || e.message.value == "") ==>
      Categorize(e).message == UnknownMessage
  {
  }

  /** `isTransientError(error)`. */
  function IsTransientError(e: ErrorRec): (r: bool)
    ensures r <==> IsTransientCategory(Rule(e))
  {
    Categorize(e).errorType == Transient
  }

  // ---------------------------------------------------------------------------------------------
  // An independent statement of the rules as a priority list of signals

  /** What each category looks for in an error, independently of the others. */
  predicate Signal(c: Category, e: ErrorRec) {
    match c
    case RateLimit => MessageHas(e, "rate limit") || HasStatus(e, 429)
    case Network => e.code.Some? && e.code.value in NetworkCodes
    case ServiceUnavailable => HasStatus(e, 502) || HasStatus(e, 503)
    case Auth =>
      || HasStatus(e, 401) || HasStatus(e, 403)
      || MessageHas(e, "Bad credentials") || MessageHas(e, "Unauthorized") || MessageHas(e, "authentication")
    case NotFound => HasStatus(e, 404) || MessageHas(e, "Not Found")
    case Config => MessageHas(e, "config") || MessageHas(e, "configuration") || MessageHas(e, "invalid")
    case Unknown => true
  }

  /** The position of each category in the order the rules are tried. */
  function Rank(c: Category): nat {
    match c
    case RateLimit => 0
    case Network => 1
    case ServiceUnavailable => 2
    case Auth => 3
    case NotFound => 4
    case Config => 5
    case Unknown => 6
  }

  /** The chosen category shows its own signal, and no category tried before it does. */
  lemma CategoryIsFirstSignal(e: ErrorRec)
    ensures Signal(Rule(e), e)
    ensures forall c :: Rank(c) < Rank(Rule(e)) ==> !Signal(c, e)
  {
  }

  /** An error is retried exactly when it shows a rate-limit, network or service-unavailable signal. */
  lemma TransientIffSignal(e: ErrorRec)
    ensures IsTransientError(e) <==> Signal(RateLimit, e) || Signal(Network, e) || Signal(ServiceUnavailable, e)
  {
    CategoryIsFirstSignal(e);
  }

  /** No error without a message, status or code is retried. */
  lemma BareErrorIsUnknown(e: ErrorRec)
    requires e.message.None? && e.status.None? && e.code.None?
    ensures Categorize(e) == ErrorInfo(Permanent, Unknown, UnknownMessage, UnknownFix)
    ensures !IsTransientError(e)
  {
    assert Rule(e) == Unknown;
  }

  /** A network code wins over an authentication status: the code is checked first. */
  lemma NetworkCodeBeforeAuthStatus(e: ErrorRec)
    requires !MessageHas(e, "rate limit") && e.status == Some(401) && e.code == Some("ETIMEDOUT")
    ensures Categorize(e).category == Network
    ensures Categorize(e).message == "Network error: ETIMEDOUT"
    ensures IsTransientError(e)
  {
    assert Rule(e) == Network;
  }

  /** None of the rule words after the rate-limit rule occur in the message. */
  predicate NoRuleWords(s: string) {
    && !Contains(s, "Bad credentials") && !Contains(s, "Unauthorized") && !Contains(s, "authentication")
    && !Contains(s, "Not Found")
    && !Contains(s, "config") && !Contains(s, "configuration") && !Contains(s, "invalid")
  }

  /** An error carrying only a message with no rule word is unknown, and its message is kept. */
  lemma MessageOnlyUnknown(e: ErrorRec)
    requires e.message.Some? && e.message.value != "" && e.status.None? && e.code.None?
    requires !Contains(e.message.value, "rate limit") && NoRuleWords(e.message.value)
    ensures Categorize(e) == ErrorInfo(Permanent, Unknown, e.message.value, UnknownFix)
  {
    assert Rule(e) == Unknown;
  }

  const RateLimitCapitalized: string := "Rate Limit Exceeded"

  lemma RateLimitCapitalizedChars()
    ensures forall k :: 0 <= k < |RateLimitCapitalized| ==> RateLimitCapitalized[k] !in "rBUhNov"
  {
  }

  /** A message none of whose characters is one of "rBUhNov" holds none of the rule words. */
  lemma NoWordsWithoutChars(s: string)
    requires forall k :: 0 <= k < |s| ==> s[k] !in "rBUhNov"
    ensures !Contains(s, "rate limit") && NoRuleWords(s)
  {
    NoAuthWords(s);
    NoOtherWords(s);
  }

  lemma NoAuthWords(s: string)
    requires forall k :: 0 <= k < |s| ==> s[k] !in "rBUhNov"
    ensures !Contains(s, "rate limit") && !Contains(s, "Bad credentials")
    ensures !Contains(s, "Unauthorized") && !Contains(s, "authentication")
  {
    AbsentCharRulesOut(s, "rate limit", 'r');
    AbsentCharRulesOut(s, "Bad credentials", 'B');
    AbsentCharRulesOut(s, "Unauthorized", 'U');
    AbsentCharRulesOut(s, "authentication", 'h');
  }

  lemma NoOtherWords(s: string)
    requires forall k :: 0 <= k < |s| ==> s[k] !in "rBUhNov"
    ensures !Contains(s, "Not Found") && !Contains(s, "config")
    ensures !Contains(s, "configuration") && !Contains(s, "invalid")
  {
    AbsentCharRulesOut(s, "Not Found", 'N');
    AbsentCharRulesOut(s, "config", 'o');
    AbsentCharRulesOut(s, "configuration", 'o');
    AbsentCharRulesOut(s, "invalid", 'v');
  }

  /** Message matching is case-sensitive: "Rate Limit Exceeded" shows no signal and is not retried. */
  lemma RateLimitWordingIsCaseSensitive()
    ensures Categorize(ErrorRec(Some(RateLimitCapitalized), None, None)).category == Unknown
    ensures !IsTransientError(ErrorRec(Some(RateLimitCapitalized), None, None))
  {
    RateLimitCapitalizedChars();
    NoWordsWithoutChars(RateLimitCapitalized);
    MessageOnlyUnknown(ErrorRec(Some(RateLimitCapitalized), None, None));
  }
}
