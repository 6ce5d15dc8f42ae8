/**
 * The signup validators and the role enumeration of the user schemas.
 *
 * The username pattern is ^[A-Za-z0-9_]{3,50}$ and the password pattern
 * requires a lower-case letter, an upper-case letter, a digit and one of
 * @$!%*?&, over at least eight characters drawn from letters, digits and
 * those six symbols. Character classes are ASCII here.
 */
module UserSchemas {
  import opened Wrappers

  /** FieldSizes.USERNAME and FieldSizes.PASSWORD. */
  const MaxUsernameLength := 50
  const MaxPasswordLength := 50
  const MinUsernameLength := 3
  const MinPasswordLength := 8

  const UsernameDescription :=
    "Username must be 3 to 50 characters long and contain only letters, numbers, or underscores."
  const PasswordDescription :=
    "Password must be at least 8 characters long and include at least one uppercase letter, one lowercase letter, one number, and one special character from @$!%*?&."

  datatype UserRole = User | Moderator | Admin

  /** The role a created user gets when none is given. */
  const DefaultRole := User

  function RoleName(r: UserRole): string {
    match r
    case User => "user"
    case Moderator => "moderator"
    case Admin => "admin"
  }

  /** The StrEnum lookup: a role is one of exactly three strings. */
  function ParseRole(s: string): (r: Option<UserRole>)
    ensures r.Some? ==> RoleName(r.value) == s
  {
    if s == "user" then Some(User)
    else if s == "moderator" then Some(Moderator)
    else if s == "admin" then Some(Admin)
    else None
  }

  lemma RoleRoundTrip(r: UserRole)
    ensures ParseRole(RoleName(r)) == Some(r)
  {
    match r
    case User =>
    case Moderator => assert RoleName(r) != "user";
    case Admin => assert RoleName(r) != "user" && RoleName(r) != "moderator";
  }

  predicate IsLower(c: char) { 'a' <= c <= 'z' }
  predicate IsUpper(c: char) { 'A' <= c <= 'Z' }
  predicate IsDigit(c: char) { '0' <= c <= '9' }
  predicate IsSpecial(c: char) {
    c == '@' || c == '$' || c == '!' || c == '%' || c == '*' || c == '?' || c == '&'
  }
  predicate IsUsernameChar(c: char) { IsLower(c) || IsUpper(c) || IsDigit(c) || c == '_' }
  predicate IsPasswordChar(c: char) { IsLower(c) || IsUpper(c) || IsDigit(c) || IsSpecial(c) }

  /** A character class of the patterns, by name. */
  datatype CharClass = Lower | Upper | Digit | Special | UsernameClass | PasswordClass

  predicate InClass(c: char, k: CharClass) {
    match k
    case Lower => IsLower(c)
    case Upper => IsUpper(c)
    case Digit => IsDigit(c)
    case Special => IsSpecial(c)
    case UsernameClass => IsUsernameChar(c)
    case PasswordClass => IsPasswordChar(c)
  }

  /** `[k]*` matched against the whole string, scanning left to right. */
  function AllIn(s: string, k: CharClass): (r: bool)
    ensures r <==> forall i :: 0 <= i < |s| ==> InClass(s[i], k)
  {
    if s == [] then true
    else InClass(s[0], k) && AllIn(s[1..], k)
  }

  /** The lookahead `(?=.*[k])`: some character of the string is in the class. */
  function SomeIn(s: string, k: CharClass): (r: bool)
    ensures r <==> exists i :: 0 <= i < |s| && InClass(s[i], k)
  {
    if s == [] then false
    else if InClass(s[0], k) then true
    else
      assert forall i :: 1 <= i < |s| ==> s[i] == s[1..][i - 1];
      SomeIn(s[1..], k)
  }

  /** The username pattern. */
  predicate MatchesUsername(s: string) {
    MinUsernameLength <= |s| <= MaxUsernameLength && AllIn(s, UsernameClass)
  }

  /** The password pattern: four lookaheads, then the allowed class at least eight times. */
  predicate MatchesPassword(s: string) {
    && SomeIn(s, Lower) && SomeIn(s, Upper) && SomeIn(s, Digit) && SomeIn(s, Special)
    && |s| >= MinPasswordLength && AllIn(s, PasswordClass)
  }

  /** UserSignup.validate_username: the value itself, or a ValueError with the description. */
  function ValidateUsername(value: string): (r: Result<string>)
    ensures r.Ok? <==>
      (&& 3 <= |value| <= 50
       && forall i :: 0 <= i < |value| ==> IsUsernameChar(value[i]))
    ensures r.Ok? ==> r.value == value
    ensures r.Err? ==> r.error == ValueError(UsernameDescription)
  {
    if MatchesUsername(value) then Ok(value) else Err(ValueError(UsernameDescription))
  }

  /** UserSignup.validate_password. */
  function ValidatePassword(value: string): (r: Result<string>)
    ensures r.Ok? <==>
      (&& |value| >= 8
       && (exists i :: 0 <= i < |value| && IsLower(value[i]))
       && (exists i :: 0 <= i < |value| && IsUpper(value[i]))
       && (exists i :: 0 <= i < |value| && IsDigit(value[i]))
       && (exists i :: 0 <= i < |value| && IsSpecial(value[i]))
       && forall i :: 0 <= i < |value| ==> IsPasswordChar(value[i]))
    ensures r.Ok? ==> r.value == value
    ensures r.Err? ==> r.error == ValueError(PasswordDescription)
  {
    if MatchesPassword(value) then Ok(value) else Err(ValueError(PasswordDescription))
  }

  /**
   * The username field of UserSignup: the length bounds of the field, then
   * the validator. Any failure surfaces as a validation error of the request.
   */
  function SignupUsername(value: string): (r: Result<string>)
    ensures r.Ok? <==> ValidateUsername(value).Ok?
    ensures r.Ok? ==> r.value == value
  {
    if !(MinUsernameLength <= |value| <= MaxUsernameLength) then
      Err(ValidationError("username length"))
    else match ValidateUsername(value)
      case Ok(v) => Ok(v)
      case Err(e) => Err(ValidationError(UsernameDescription))
  }

  /** The password field of UserSignup: 8..50 characters, then the validator. */
  function SignupPassword(value: string): (r: Result<string>)
    ensures r.Ok? <==> |value| <= MaxPasswordLength && ValidatePassword(value).Ok?
    ensures r.Ok? ==> r.value == value
  {
    if !(MinPasswordLength <= |value| <= MaxPasswordLength) then
      Err(ValidationError("password length"))
    else match ValidatePassword(value)
      case Ok(v) => Ok(v)
      case Err(e) => Err(ValidationError(PasswordDescription))
  }
}
