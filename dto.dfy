/**
 * The request bodies of the user endpoints: `CreateUserDto` with the
 * constraints its validation decorators declare
 * (src/modules/users/dto/create-user.dto.ts), and `UpdateUserDto`, the
 * all-optional subset of those fields plus `status` that the service
 * accepts for updates.
 */
module Dto {
  import opened Wrappers
  import opened Entity

  /** A create request. `gender` is optional here so that a missing value can
      be told apart; the validation below requires it. */
  datatype CreateUserDto = CreateUserDto(
    login: string,
    firstName: string,
    lastName: string,
    middleName: Option<string>,
    gender: Option<Gender>,
    age: int,
    phone: Option<string>,
    email: string,
    avatar: Option<string>)

  /** An update request: `None` is a property left undefined. */
  datatype UpdateUserDto = UpdateUserDto(
    login: Option<string>,
    firstName: Option<string>,
    lastName: Option<string>,
    middleName: Option<string>,
    gender: Option<Gender>,
    age: Option<int>,
    phone: Option<string>,
    email: Option<string>,
    avatar: Option<string>,
    status: Option<UserStatus>)

  /** The update `{ status }` that the status endpoint sends. */
  function StatusOnly(status: UserStatus): (patch: UpdateUserDto)
    ensures patch.status == Some(status)
    ensures patch.login.None? && patch.email.None? && patch.age.None?
  {
    UpdateUserDto(None, None, None, None, None, None, None, None, None, Some(status))
  }

  // ---------------------------------------------------------------------
  // Per-field constraints

  /** `@Length(min, max)` */
  predicate LengthIn(s: string, min: nat, max: nat) {
    min <= |s| <= max
  }

  /** `@IsOptional()` followed by `@Length(min, max)`. */
  predicate OptionalLengthIn(s: Option<string>, min: nat, max: nat) {
    s.None? || LengthIn(s.value, min, max)
  }

  /** `[a-zA-Z0-9_]` */
  predicate IsLoginChar(c: char) {
    ('a' <= c <= 'z') || ('A' <= c <= 'Z') || ('0' <= c <= '9') || c == '_'
  }

  /** `/^[a-zA-Z0-9_]+$/` */
  predicate MatchesLoginPattern(s: string) {
    |s| >= 1 && forall k :: 0 <= k < |s| ==> IsLoginChar(s[k])
  }

  predicate ValidLogin(login: string) {
    LengthIn(login, 3, 50) && MatchesLoginPattern(login)
  }

  /** `[0-9\s\-\(\)]`: `\s` is the same white-space set that `trim` strips. */
  predicate IsPhoneChar(c: char) {
    ('0' <= c <= '9') || IsWhiteSpace(c) || c == '-' || c == '(' || c == ')'
  }

  /** `[0-9\s\-\(\)]+` */
  predicate PhoneDigits(s: string) {
    |s| >= 1 && forall k :: 0 <= k < |s| ==> IsPhoneChar(s[k])
  }

  /** `/^[\+]?[0-9\s\-\(\)]+$/`: since '+' is not in the class, the optional
      plus matches exactly when the string starts with one. */
  predicate MatchesPhonePattern(s: string) {
    if |s| > 0 && s[0] == '+' then PhoneDigits(s[1..]) else PhoneDigits(s)
  }

  predicate ValidPhone(phone: Option<string>) {
    phone.None? || (LengthIn(phone.value, 10, 20) && MatchesPhonePattern(phone.value))
  }

  /** `@IsInt() @Min(0) @Max(150)` */
  predicate ValidAge(age: int) {
    0 <= age <= 150
  }

  /**
   * Every decorator of `CreateUserDto` holds. `@IsEmail()` is a library
   * validator and is taken as the parameter `isEmail`.
   */
  predicate ValidCreateUser(dto: CreateUserDto, isEmail: string -> bool) {
    && ValidLogin(dto.login)
    && LengthIn(dto.firstName, 2, 100)
    && LengthIn(dto.lastName, 2, 100)
    && OptionalLengthIn(dto.middleName, 1, 100)
    && dto.gender.Some?
    && ValidAge(dto.age)
    && ValidPhone(dto.phone)
    && isEmail(dto.email)
    && OptionalLengthIn(dto.avatar, 1, 255)
  }

  // ---------------------------------------------------------------------
  // What the constraints mean

  /** A phone number matches when it is not just "+", and every character is a
      digit, white space, '-', '(' or ')', except that the first may be '+'. */
  lemma PhonePatternCharacterized(s: string)
    ensures MatchesPhonePattern(s) <==>
      && s != [] && s != "+"
      && forall k :: 0 <= k < |s| ==> IsPhoneChar(s[k]) || (k == 0 && s[k] == '+')
  {
    if |s| > 0 && s[0] == '+' {
      if MatchesPhonePattern(s) {
        forall k | 1 <= k < |s| ensures IsPhoneChar(s[k]) {
          assert s[1..][k - 1] == s[k];
        }
      }
      if s != "+" && forall k :: 0 <= k < |s| ==> IsPhoneChar(s[k]) || (k == 0 && s[k] == '+') {
        assert |s| >= 2;
        forall k | 0 <= k < |s[1..]| ensures IsPhoneChar(s[1..][k]) {
          assert s[1..][k] == s[k + 1];
        }
      }
    }
  }

  /** The examples the API documents, and near misses. */
  lemma LoginExamples()
    ensures ValidLogin("john_doe")
    ensures !ValidLogin("jo")
    ensures !ValidLogin("john-doe")
    ensures !ValidLogin("john doe")
  {
    assert !IsLoginChar("john-doe"[4]);
    assert !IsLoginChar("john doe"[4]);
  }

  lemma PhoneExamples()
    ensures ValidPhone(Some("+1234567890"))
    ensures ValidPhone(Some("+1 (234) 567-89"))
    ensures !ValidPhone(Some("12345+67890"))
    ensures !ValidPhone(Some("+123456"))
  {
    var bad := "12345+67890";
    assert !IsPhoneChar(bad[5]);
  }

  /** A valid request fits the table's columns; only the email width, which
      `@IsEmail()` decides, has to be assumed. */
  lemma ValidCreateUserFitsWidths(dto: CreateUserDto, isEmail: string -> bool)
    requires ValidCreateUser(dto, isEmail)
    ensures |dto.login| <= LoginWidth
    ensures |dto.firstName| <= NameWidth && |dto.lastName| <= NameWidth
    ensures FitsWidth(dto.middleName, NameWidth)
    ensures FitsWidth(dto.phone, PhoneWidth)
    ensures FitsWidth(dto.avatar, AvatarWidth)
    ensures 0 <= dto.age && MinInt4 <= dto.age <= MaxInt4
  {
  }
}
