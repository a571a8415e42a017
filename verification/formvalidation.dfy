/**
 * The sign-up form's field validators. Each returns the message to show, or `None` when the field
 * is acceptable.
 */
module FormValidation {
  import opened Common
  import opened JsText

  // -----------------------------------------------------------------------------------------------
  // Email

  /** A run of the regular-expression class `[^\s@]+`: non-empty, no white space, no `@`. */
  ghost predicate IsEmailPart(s: string) {
    s != [] && forall k :: 0 <= k < |s| ==> !IsWhite(s[k]) && s[k] != '@'
  }

  /** `s` reads `local@domain.tld` with the `@` at `i` and the dot at `j`, each part a run of `[^\s@]`. */
  ghost predicate EmailSplitsAt(s: string, i: int, j: int) {
    && 0 <= i < j < |s| && s[i] == '@' && s[j] == '.'
    && IsEmailPart(s[..i]) && IsEmailPart(s[i + 1..j]) && IsEmailPart(s[j + 1..])
  }

  /** `/^[^\s@]+@[^\s@]+\.[^\s@]+$/.test(s)`, stated as the regular expression reads. */
  ghost predicate MatchesEmailPattern(s: string) {
    exists i, j :: EmailSplitsAt(s, i, j)
  }

  /** The pattern decided directly: one `@` with something before it, no white space, and a dot strictly inside what follows. */
  predicate IsEmailShaped(s: string) {
    var at := IndexOfAny(s, "@");
    && 0 < at < |s|
    && (forall k :: 0 <= k < |s| ==> !IsWhite(s[k]))
    && '@' !in s[at + 1..]
    && |s| - at - 1 >= 3 && '.' in s[at + 2..|s| - 1]
  }

  lemma EmailShapedMatches(s: string)
    requires IsEmailShaped(s)
    ensures MatchesEmailPattern(s)
  {
    var at := IndexOfAny(s, "@");
    var inner := s[at + 2..|s| - 1];
    var k :| 0 <= k < |inner| && inner[k] == '.';
    var j := at + 2 + k;
    assert s[j] == '.';
    assert s[at] == '@';
    forall m | 0 <= m < at
      ensures s[m] != '@'
    {
      assert s[m] !in "@";
    }
    forall m | at + 1 <= m < |s|
      ensures s[m] != '@'
    {
      assert s[m] == s[at + 1..][m - at - 1];
    }
    assert IsEmailPart(s[..at]);
    assert IsEmailPart(s[at + 1..j]);
    assert IsEmailPart(s[j + 1..]);
    assert EmailSplitsAt(s, at, j);
  }

  lemma MatchesEmailShaped(s: string, i: int, j: int)
    requires EmailSplitsAt(s, i, j)
    ensures IsEmailShaped(s)
  {
    forall m | 0 <= m < |s|
      ensures !IsWhite(s[m]) && (m != i ==> s[m] != '@')
    {
      if m < i {
        assert s[m] == s[..i][m];
      } else if i < m < j {
        assert s[m] == s[i + 1..j][m - i - 1];
      } else if m > j {
        assert s[m] == s[j + 1..][m - j - 1];
      }
    }
    assert IndexOfAny(s, "@") == i;
    var rest := s[i + 1..];
    assert '@' !in rest by {
      forall m | 0 <= m < |rest|
        ensures rest[m] != '@'
      {
        assert rest[m] == s[i + 1 + m];
      }
    }
    assert s[i + 2..|s| - 1][j - i - 2] == '.';
  }

  /** The direct check and the regular expression accept the same strings. */
  lemma EmailShapeIffPattern(s: string)
    ensures IsEmailShaped(s) <==> MatchesEmailPattern(s)
  {
    if IsEmailShaped(s) {
      EmailShapedMatches(s);
    }
    if MatchesEmailPattern(s) {
      var i, j :| EmailSplitsAt(s, i, j);
      MatchesEmailShaped(s, i, j);
    }
  }

  /** `validateEmail(email)`. */
  function ValidateEmail(email: string): (r: Option<string>)
    ensures email == "" ==> r == Some("Email is required")
  {
    if email == "" then Some("Email is required")
    else if !IsEmailShaped(email) then Some("Invalid email format")
    else None
  }

  /** An address is accepted exactly when it matches the pattern; a non-empty mismatch is reported as a format error. */
  lemma EmailAcceptedIffPattern(email: string)
    ensures ValidateEmail(email).None? <==> MatchesEmailPattern(email)
    ensures email != "" && !MatchesEmailPattern(email) ==> ValidateEmail(email) == Some("Invalid email format")
  {
    EmailShapeIffPattern(email);
  }

  // -----------------------------------------------------------------------------------------------
  // Password

  const Specials: string := "!@#$%^&*"

  predicate HasUpper(s: string) { exists k :: 0 <= k < |s| && 'A' <= s[k] <= 'Z' }
  predicate HasLower(s: string) { exists k :: 0 <= k < |s| && 'a' <= s[k] <= 'z' }
  predicate HasDigit(s: string) { exists k :: 0 <= k < |s| && '0' <= s[k] <= '9' }
  predicate HasSpecial(s: string) { exists k :: 0 <= k < |s| && s[k] in Specials }

  /** `validatePassword(password)`: the rules are tried in order and the first failure is reported. */
  function ValidatePassword(password: string): (r: Option<string>)
    ensures password == "" ==> r == Some("Password is required")
  {
    if password == "" then Some("Password is required")
    else if Utf16Length(password) < 8 then Some("Password must be at least 8 characters")
    else if !HasUpper(password) then Some("Password must contain at least one uppercase letter")
    else if !HasLower(password) then Some("Password must contain at least one lowercase letter")
    else if !HasDigit(password) then Some("Password must contain at least one number")
    else if !HasSpecial(password) then Some("Password must contain at least one special character (!@#$%^&*)")
    else None
  }

  /** A password is accepted exactly when it has eight UTF-16 units and all four character classes. */
  lemma PasswordAcceptedIff(password: string)
    ensures ValidatePassword(password).None? <==>
      Utf16Length(password) >= 8 && HasUpper(password) && HasLower(password) && HasDigit(password) && HasSpecial(password)
  {
  }

  /** The password rules, in the order `validatePassword` tries them. */
  datatype PasswordRule = Required | MinLength | Upper | Lower | Digit | Special

  function RuleRank(q: PasswordRule): nat {
    match q
    case Required => 0
    case MinLength => 1
    case Upper => 2
    case Lower => 3
    case Digit => 4
    case Special => 5
  }

  /** The password breaks rule `q`. */
  predicate RuleFails(q: PasswordRule, password: string) {
    match q
    case Required => password == ""
    case MinLength => Utf16Length(password) < 8
    case Upper => !HasUpper(password)
    case Lower => !HasLower(password)
    case Digit => !HasDigit(password)
    case Special => !HasSpecial(password)
  }

  /** The message reported for a broken rule. */
  function RuleMessage(q: PasswordRule): string {
    match q
    case Required => "Password is required"
    case MinLength => "Password must be at least 8 characters"
    case Upper => "Password must contain at least one uppercase letter"
    case Lower => "Password must contain at least one lowercase letter"
    case Digit => "Password must contain at least one number"
    case Special => "Password must contain at least one special character (!@#$%^&*)"
  }

  /**
   * The message reported is that of the earliest rule the password breaks, and nothing is
   * reported exactly when it breaks none.
   */
  lemma PasswordReportsFirstBrokenRule(password: string)
    ensures ValidatePassword(password).None? <==> forall q :: !RuleFails(q, password)
    ensures forall q :: ValidatePassword(password) == Some(RuleMessage(q)) <==>
      RuleFails(q, password) && forall q' :: RuleRank(q') < RuleRank(q) ==> !RuleFails(q', password)
  {
    assert !RuleFails(Required, password) && !RuleFails(MinLength, password) && !RuleFails(Upper, password)
      && !RuleFails(Lower, password) && !RuleFails(Digit, password) && !RuleFails(Special, password)
      ==> ValidatePassword(password).None?;
    forall q ensures ValidatePassword(password) == Some(RuleMessage(q)) <==>
      RuleFails(q, password) && forall q' :: RuleRank(q') < RuleRank(q) ==> !RuleFails(q', password)
    {
      ReportsRuleIffFirst(password, q);
    }
  }

  lemma ReportsRuleIffFirst(password: string, q: PasswordRule)
    ensures ValidatePassword(password) == Some(RuleMessage(q)) <==>
      RuleFails(q, password) && forall q' :: RuleRank(q') < RuleRank(q) ==> !RuleFails(q', password)
  {
    if !forall q' :: RuleRank(q') < RuleRank(q) ==> !RuleFails(q', password) {
      var q' :| RuleRank(q') < RuleRank(q) && RuleFails(q', password);
      EarlierBrokenRuleWins(password, q, q');
    } else if RuleFails(q, password) {
      FirstBrokenRuleReported(password, q);
    } else {
      PassedRuleNotReported(password, q);
    }
  }

  lemma FirstBrokenRuleReported(password: string, q: PasswordRule)
    requires RuleFails(q, password) && forall q' :: RuleRank(q') < RuleRank(q) ==> !RuleFails(q', password)
    ensures ValidatePassword(password) == Some(RuleMessage(q))
  {
    assert RuleRank(q) > 0 ==> !RuleFails(Required, password);
    assert RuleRank(q) > 1 ==> !RuleFails(MinLength, password);
    assert RuleRank(q) > 2 ==> !RuleFails(Upper, password);
    assert RuleRank(q) > 3 ==> !RuleFails(Lower, password);
    assert RuleRank(q) > 4 ==> !RuleFails(Digit, password);
  }

  lemma PassedRuleNotReported(password: string, q: PasswordRule)
    requires !RuleFails(q, password) && forall q' :: RuleRank(q') < RuleRank(q) ==> !RuleFails(q', password)
    ensures ValidatePassword(password) != Some(RuleMessage(q))
  {
    assert RuleRank(q) > 0 ==> !RuleFails(Required, password);
    assert RuleRank(q) > 1 ==> !RuleFails(MinLength, password);
    assert RuleRank(q) > 2 ==> !RuleFails(Upper, password);
    assert RuleRank(q) > 3 ==> !RuleFails(Lower, password);
    assert RuleRank(q) > 4 ==> !RuleFails(Digit, password);
  }

  lemma EarlierBrokenRuleWins(password: string, q: PasswordRule, q': PasswordRule)
    requires RuleRank(q') < RuleRank(q) && RuleFails(q', password)
    ensures ValidatePassword(password) != Some(RuleMessage(q))
  {
    match q' {
      case Required =>
      case MinLength =>
      case Upper =>
      case Lower =>
      case Digit =>
      case Special =>
    }
  }

  /** Length is checked before the character classes. */
  lemma ShortPasswordReportsLength(password: string)
    requires password != "" && Utf16Length(password) < 8
    ensures ValidatePassword(password) == Some("Password must be at least 8 characters")
  {
  }

  /** Eight characters from the Basic Multilingual Plane are long enough. */
  lemma BmpLength(password: string)
    requires |password| >= 8 && forall k :: 0 <= k < |password| ==> password[k] as int < 0x10000
    ensures ValidatePassword(password) != Some("Password must be at least 8 characters")
  {
  }

  // -----------------------------------------------------------------------------------------------
  // Confirmation and required fields

  /** `validatePasswordMatch(password, confirm)`. */
  function ValidatePasswordMatch(password: string, confirm: string): (r: Option<string>)
    ensures r.None? <==> password == confirm
    ensures r.Some? ==> r.value == "Passwords do not match"
  {
    if password != confirm then Some("Passwords do not match") else None
  }

  /** `validateRequired(value, fieldName)`. */
  function ValidateRequired(value: string, fieldName: string): (r: Option<string>)
    ensures r.None? <==> !IsBlank(value)
    ensures r.Some? ==> r.value == fieldName + " is required"
  {
    if value == "" || Trim(value) == "" then Some(fieldName + " is required") else None
  }
}
