/**
 * The `users` table row: the two enums, the record with its column widths
 * and defaults, and the two derived read-only properties `fullName` and
 * `initials` (src/database/entities/user.entity.ts).
 */
module Entity {
  import opened Wrappers

  datatype Gender = Male | Female

  datatype UserStatus = Active | Inactive | Suspended

  /** Column defaults applied when a row is inserted without the value. */
  const DefaultGender: Gender := Male
  const DefaultStatus: UserStatus := Active

  /** The generated primary key; its generation is modelled by a counter. */
  type UserId = nat

  /** A point of the store's logical clock, used for createdAt/updatedAt. */
  type Timestamp = nat

  datatype User = User(
    id: UserId,
    login: string,
    firstName: string,
    lastName: string,
    middleName: Option<string>,
    gender: Gender,
    age: int,
    phone: Option<string>,
    email: string,
    avatar: Option<string>,
    status: UserStatus,
    createdAt: Timestamp,
    updatedAt: Timestamp)

  /** Widths of the varchar columns. */
  const LoginWidth := 50
  const NameWidth := 100
  const PhoneWidth := 20
  const EmailWidth := 255
  const AvatarWidth := 255

  predicate FitsWidth(s: Option<string>, width: nat) {
    s.None? || |s.value| <= width
  }

  /** Bounds of PostgreSQL's `int` (int4), the type of the `age` column. */
  const MinInt4 := -0x8000_0000
  const MaxInt4 := 0x7FFF_FFFF

  /** The row can be stored: every varchar fits its column and the age fits
      the signed 32-bit `int` column. */
  predicate FitsColumns(u: User) {
    && |u.login| <= LoginWidth
    && |u.firstName| <= NameWidth
    && |u.lastName| <= NameWidth
    && FitsWidth(u.middleName, NameWidth)
    && FitsWidth(u.phone, PhoneWidth)
    && |u.email| <= EmailWidth
    && FitsWidth(u.avatar, AvatarWidth)
    && MinInt4 <= u.age <= MaxInt4
  }

  // ---------------------------------------------------------------------
  // String.prototype.trim

  /** ECMAScript WhiteSpace and LineTerminator code points: what `trim` strips. */
  predicate IsWhiteSpace(c: char) {
    || c == '\t' || c == '\n' || c == '\U{000B}' || c == '\U{000C}' || c == '\r'
    || c == ' ' || c == '\U{00A0}' || c == '\U{1680}'
    || ('\U{2000}' <= c <= '\U{200A}')
    || c == '\U{2028}' || c == '\U{2029}' || c == '\U{202F}' || c == '\U{205F}'
    || c == '\U{3000}' || c == '\U{FEFF}'
  }

  predicate AllWhiteSpace(s: string) {
    forall k :: 0 <= k < |s| ==> IsWhiteSpace(s[k])
  }

  /** Neither end of `r` is white space. */
  predicate Unpadded(r: string) {
    r == [] || (!IsWhiteSpace(r[0]) && !IsWhiteSpace(r[|r| - 1]))
  }

  /** `r` is `s[i..j]`, and everything of `s` outside it is white space. */
  predicate TrimAt(r: string, s: string, i: nat, j: nat) {
    i <= j <= |s| && r == s[i..j]
    && AllWhiteSpace(s[..i]) && AllWhiteSpace(s[j..]) && Unpadded(r)
  }

  /** `r` is `s` with its leading and trailing white space removed. */
  ghost predicate IsTrimOf(r: string, s: string) {
    exists i: nat, j: nat :: TrimAt(r, s, i, j)
  }

  /** Length of the white-space run at the start of `s`. */
  function LeadingSpace(s: string): (k: nat)
    ensures k <= |s| && AllWhiteSpace(s[..k])
    ensures k < |s| ==> !IsWhiteSpace(s[k])
  {
    if |s| > 0 && IsWhiteSpace(s[0]) then
      var k' := LeadingSpace(s[1..]);
      assert s[..k' + 1] == [s[0]] + s[1..][..k'];
      k' + 1
    else
      0
  }

  /** Length of the white-space run at the end of `s`. */
  function TrailingSpace(s: string): (k: nat)
    ensures k <= |s| && AllWhiteSpace(s[|s| - k..])
    ensures k < |s| ==> !IsWhiteSpace(s[|s| - 1 - k])
  {
    if |s| > 0 && IsWhiteSpace(s[|s| - 1]) then
      var init := s[..|s| - 1];
      var k' := TrailingSpace(init);
      assert s[|s| - (k' + 1)..] == init[|init| - k'..] + [s[|s| - 1]];
      k' + 1
    else
      0
  }

  /** `s.trim()`. */
  function Trim(s: string): (r: string)
    ensures IsTrimOf(r, s)
  {
    var i := LeadingSpace(s);
    if i == |s| then
      assert s[|s|..] == [] && s[..|s|] == s;
      assert TrimAt([], s, |s|, |s|);
      s[|s|..]
    else
      var t := TrailingSpace(s);
      var r := s[i..|s| - t];
      assert r[0] == s[i] && r[|r| - 1] == s[|s| - 1 - t];
      assert TrimAt(r, s, i, |s| - t);
      r
  }

  /** Trimming has exactly one result. */
  lemma TrimOfIsUnique(s: string, r1: string, r2: string)
    requires IsTrimOf(r1, s) && IsTrimOf(r2, s)
    ensures r1 == r2
  {
    var i1: nat, j1: nat :| TrimAt(r1, s, i1, j1);
    var i2: nat, j2: nat :| TrimAt(r2, s, i2, j2);
    if r1 == [] {
      EmptyTrimMeansBlank(s, i1, j1);
      NoVisibleTrimOfBlank(s, r2, i2, j2);
    } else if r2 == [] {
      EmptyTrimMeansBlank(s, i2, j2);
      NoVisibleTrimOfBlank(s, r1, i1, j1);
    } else {
      TrimStartIsUnique(s, r1, i1, j1, r2, i2, j2);
      TrimStartIsUnique(s, r2, i2, j2, r1, i1, j1);
      TrimEndIsUnique(s, r1, i1, j1, r2, i2, j2);
      TrimEndIsUnique(s, r2, i2, j2, r1, i1, j1);
    }
  }

  lemma EmptyTrimMeansBlank(s: string, i: nat, j: nat)
    requires TrimAt([], s, i, j)
    ensures AllWhiteSpace(s)
  {
    forall k | 0 <= k < |s| ensures IsWhiteSpace(s[k]) {
      if k < i { assert s[..i][k] == s[k]; } else { assert s[j..][k - j] == s[k]; }
    }
  }

  lemma NoVisibleTrimOfBlank(s: string, r: string, i: nat, j: nat)
    requires AllWhiteSpace(s) && TrimAt(r, s, i, j)
    ensures r == []
  {
  }

  lemma TrimStartIsUnique(s: string, r1: string, i1: nat, j1: nat, r2: string, i2: nat, j2: nat)
    requires TrimAt(r1, s, i1, j1) && TrimAt(r2, s, i2, j2) && r1 != [] && r2 != []
    ensures i1 <= i2
  {
    if i2 < i1 {
      WhiteBefore(s, i1, i2);
    }
  }

  lemma TrimEndIsUnique(s: string, r1: string, i1: nat, j1: nat, r2: string, i2: nat, j2: nat)
    requires TrimAt(r1, s, i1, j1) && TrimAt(r2, s, i2, j2) && r1 != [] && r2 != []
    ensures j1 <= j2
  {
    if j2 < j1 {
      WhiteAfter(s, j2, j1 - 1);
    }
  }

  lemma WhiteBefore(s: string, i: nat, k: nat)
    requires k < i <= |s| && AllWhiteSpace(s[..i])
    ensures IsWhiteSpace(s[k])
  {
    assert s[..i][k] == s[k];
  }

  lemma WhiteAfter(s: string, j: nat, k: int)
    requires j <= k < |s| && AllWhiteSpace(s[j..])
    ensures IsWhiteSpace(s[k])
  {
    assert s[j..][k - j] == s[k];
  }

  /** A string without white space at either end is its own trim. */
  lemma TrimUnpadded(s: string)
    requires Unpadded(s)
    ensures Trim(s) == s
  {
    assert s[0..|s|] == s && s[..0] == [] && s[|s|..] == [];
    assert TrimAt(s, s, 0, |s|);
    TrimOfIsUnique(s, Trim(s), s);
  }

  /** Trimming twice is trimming once. */
  lemma TrimIdempotent(s: string)
    ensures Trim(Trim(s)) == Trim(s)
  {
    var r := Trim(s);
    var i: nat, j: nat :| TrimAt(r, s, i, j);
    TrimUnpadded(r);
  }

  // ---------------------------------------------------------------------
  // Derived properties

  /** `${firstName} ${lastName}`.trim() */
  function FullName(firstName: string, lastName: string): (r: string)
    ensures IsTrimOf(r, firstName + " " + lastName)
  {
    Trim(firstName + " " + lastName)
  }

  /** Names that begin and end with a visible character are joined by one space. */
  lemma FullNameOfPlainNames(firstName: string, lastName: string)
    requires firstName != [] && lastName != []
    requires !IsWhiteSpace(firstName[0]) && !IsWhiteSpace(lastName[|lastName| - 1])
    ensures FullName(firstName, lastName) == firstName + " " + lastName
  {
    var s := firstName + " " + lastName;
    assert s[0] == firstName[0] && s[|s| - 1] == lastName[|lastName| - 1];
    TrimUnpadded(s);
  }

  predicate IsLowerAscii(c: char) {
    'a' <= c <= 'z'
  }

  /** `toUpperCase` on one character, for the ASCII letters. */
  function ToUpper(c: char): (u: char)
    ensures !IsLowerAscii(u)
    ensures IsLowerAscii(c) ==> u as int == c as int - 32
    ensures !IsLowerAscii(c) ==> u == c
  {
    if IsLowerAscii(c) then (c as int - 32) as char else c
  }

  /** `s.charAt(0).toUpperCase()`: empty for an empty string. */
  function FirstUpper(s: string): (r: string)
    ensures |r| == if s == [] then 0 else 1
    ensures s != [] ==> r[0] == ToUpper(s[0])
  {
    if s == [] then [] else [ToUpper(s[0])]
  }

  /** `${first}${last}` with each part the upper-cased first character. */
  function Initials(firstName: string, lastName: string): (r: string)
    ensures |r| == (if firstName == [] then 0 else 1) + (if lastName == [] then 0 else 1)
    ensures |r| <= 2
    ensures |r| == 2 <==> firstName != [] && lastName != []
    ensures firstName != [] ==> r[0] == ToUpper(firstName[0])
    ensures lastName != [] ==> r[|r| - 1] == ToUpper(lastName[0])
    ensures forall k :: 0 <= k < |r| ==> !IsLowerAscii(r[k])
  {
    FirstUpper(firstName) + FirstUpper(lastName)
  }
}
