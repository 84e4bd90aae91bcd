/**
 * The records of the user service (`src/models/user.rs`): the `User` row, the
 * sign-in reply, the request bodies with their validation rules, and the
 * profile patch turned into column/value pairs.
 */
module UserModels {
  import opened Wrappers
  import opened Utf8
  import opened Json

  /** Rust's `i32` */
  newtype i32 = x: int | -0x8000_0000 <= x < 0x8000_0000

  /** A row of the `User` table as it is read into the `User` struct; the text columns are raw bytes. */
  datatype User = User(id: i32, image: Option<Bytes>, email: Bytes, fullName: Bytes, password: Option<Bytes>)

  /** The sign-in reply; `expiredAt` is the expiry instant in the text form it is serialised as. */
  datatype UserWithAuth = UserWithAuth(accessToken: string, expiredAt: string, user: User)

  // ---------------------------------------------------------------------------
  // Serialisation

  /** A `Vec<u8>` is serialised as an array of numbers. */
  function BytesJson(b: Bytes): (j: Json)
    ensures j.Array? && |j.items| == |b|
    ensures forall i :: 0 <= i < |b| ==> j.items[i] == Number(b[i] as int)
  {
    Array(seq(|b|, i requires 0 <= i < |b| => Number(b[i] as int)))
  }

  /** Reads back an array of numbers as bytes; anything else is refused. */
  function JsonBytes(items: seq<Json>): (r: Option<Bytes>)
    ensures r.Some? ==> |r.value| == |items|
  {
    if items == [] then Some([])
    else if items[0].Number? && 0 <= items[0].n < 0x100 then
      match JsonBytes(items[1..])
      case Some(rest) => Some([items[0].n as byte] + rest)
      case None => None
    else None
  }

  lemma {:induction false} JsonBytesOfBytes(b: Bytes)
    ensures JsonBytes(BytesJson(b).items) == Some(b)
  {
    var items := BytesJson(b).items;
    if b != [] {
      assert items[0] == Number(b[0] as int);
      assert items[1..] == BytesJson(b[1..]).items;
      JsonBytesOfBytes(b[1..]);
      assert [b[0]] + b[1..] == b;
    }
  }

  function OptionBytesJson(b: Option<Bytes>): Json
  {
    match b
    case None => Null
    case Some(v) => BytesJson(v)
  }

  /**
   * The JSON form of a `User`: its fields in declaration order, with the
   * password skipped.
   */
  function UserJson(u: User): (j: Json)
    ensures j.Object? && Names(j.members) == ["id", "image", "email", "full_name"]
    ensures "password" !in Names(j.members)
  {
    Object([("id", Number(u.id as int)), ("image", OptionBytesJson(u.image)),
            ("email", BytesJson(u.email)), ("full_name", BytesJson(u.fullName))])
  }

  /** The JSON form of the sign-in reply. */
  function UserWithAuthJson(a: UserWithAuth): (j: Json)
    ensures j.Object? && Names(j.members) == ["access_token", "expired_at", "user"]
    ensures Get(j.members, "user") == Some(UserJson(a.user))
  {
    Object([("access_token", Str(a.accessToken)), ("expired_at", Str(a.expiredAt)), ("user", UserJson(a.user))])
  }

  /** A required byte-array member. */
  function RequiredBytes(members: seq<(string, Json)>, name: string): Option<Bytes>
  {
    match Get(members, name)
    case Some(Array(items)) => JsonBytes(items)
    case _ => None
  }

  /** An optional byte-array member: missing or null is `None`; `None` overall means malformed. */
  function OptionalBytes(members: seq<(string, Json)>, name: string): Option<Option<Bytes>>
  {
    match Get(members, name)
    case None => Some(None)
    case Some(Null) => Some(None)
    case Some(Array(items)) =>
      (match JsonBytes(items)
       case Some(b) => Some(Some(b))
       case None => None)
    case _ => None
  }

  /** A required `i32` member. */
  function RequiredI32(members: seq<(string, Json)>, name: string): Option<i32>
  {
    match Get(members, name)
    case Some(Number(n)) => if -0x8000_0000 <= n < 0x8000_0000 then Some(n as i32) else None
    case _ => None
  }

  /**
   * Reading a `User` back from JSON: members are found by name, a missing or
   * null `image` is `None`, and the skipped password takes its default `None`.
   */
  function UserFromJson(j: Json): Option<User>
  {
    if !j.Object? then None
    else
      match (RequiredI32(j.members, "id"), OptionalBytes(j.members, "image"),
             RequiredBytes(j.members, "email"), RequiredBytes(j.members, "full_name"))
      case (Some(id), Some(image), Some(email), Some(fullName)) => Some(User(id, image, email, fullName, None))
      case _ => None
  }

  lemma UserJsonMembers(u: User)
    ensures Get(UserJson(u).members, "id") == Some(Number(u.id as int))
    ensures Get(UserJson(u).members, "image") == Some(OptionBytesJson(u.image))
    ensures Get(UserJson(u).members, "email") == Some(BytesJson(u.email))
    ensures Get(UserJson(u).members, "full_name") == Some(BytesJson(u.fullName))
  {
    var m := UserJson(u).members;
    assert m[1..][0] == ("image", OptionBytesJson(u.image));
    assert m[1..][1..][0] == ("email", BytesJson(u.email));
    assert m[1..][1..][1..][0] == ("full_name", BytesJson(u.fullName));
  }

  lemma RequiredBytesOf(members: seq<(string, Json)>, name: string, b: Bytes)
    requires Get(members, name) == Some(BytesJson(b))
    ensures RequiredBytes(members, name) == Some(b)
  {
    JsonBytesOfBytes(b);
  }

  lemma OptionalBytesOf(members: seq<(string, Json)>, name: string, b: Option<Bytes>)
    requires Get(members, name) == Some(OptionBytesJson(b))
    ensures OptionalBytes(members, name) == Some(b)
  {
    if b.Some? {
      JsonBytesOfBytes(b.value);
    }
  }

  lemma UserJsonFields(u: User)
    ensures RequiredI32(UserJson(u).members, "id") == Some(u.id)
    ensures RequiredBytes(UserJson(u).members, "email") == Some(u.email)
    ensures RequiredBytes(UserJson(u).members, "full_name") == Some(u.fullName)
    ensures OptionalBytes(UserJson(u).members, "image") == Some(u.image)
  {
    var m := UserJson(u).members;
    UserJsonMembers(u);
    RequiredBytesOf(m, "email", u.email);
    RequiredBytesOf(m, "full_name", u.fullName);
    OptionalBytesOf(m, "image", u.image);
  }

  /** A serialised user reads back as the same user without its password. */
  lemma UserJsonRoundTrip(u: User)
    ensures UserFromJson(UserJson(u)) == Some(u.(password := None))
  {
    UserJsonFields(u);
  }

  // ---------------------------------------------------------------------------
  // Validation rules

  /** The character classes of the two password patterns `[A-Za-z]+` and `[0-9]+`. */
  datatype CharClass = AsciiAlphabet | AsciiDigit

  predicate InClass(c: char, cls: CharClass)
  {
    match cls
    case AsciiAlphabet => 'A' <= c <= 'Z' || 'a' <= c <= 'z'
    case AsciiDigit => '0' <= c <= '9'
  }

  /**
   * `Regex::is_match` for the unanchored pattern "one or more characters of
   * `cls`": the search tries each start position in turn, and a start matches
   * when the character there is in the class.
   */
  function IsMatch(s: string, cls: CharClass): bool
  {
    |s| > 0 && (InClass(s[0], cls) || IsMatch(s[1..], cls))
  }

  predicate Contains(s: string, cls: CharClass)
  {
    exists i :: 0 <= i < |s| && InClass(s[i], cls)
  }

  /** The unanchored pattern matches exactly the strings containing a character of the class. */
  lemma {:induction false} IsMatchIff(s: string, cls: CharClass)
    ensures IsMatch(s, cls) <==> Contains(s, cls)
  {
    if s != [] {
      IsMatchIff(s[1..], cls);
      if Contains(s[1..], cls) {
        var i :| 0 <= i < |s[1..]| && InClass(s[1..][i], cls);
        assert s[i + 1] == s[1..][i];
      }
      if Contains(s, cls) && !InClass(s[0], cls) {
        var i :| 0 <= i < |s| && InClass(s[i], cls);
        assert s[1..][i - 1] == s[i];
      }
    }
  }

  /** A `#[validate(...)]` rule on a string field, with its message. */
  datatype Rule =
    | Email(message: string)
    | Length(min: nat, message: string)
    | Pattern(cls: CharClass, message: string)
    | Url(message: string)

  /** Email and URL syntax are checked by library code; they are given as predicates. */
  datatype Oracle = Oracle(isEmail: string -> bool, isUrl: string -> bool)

  /** One failed rule as it is reported: its code and its message. */
  datatype RuleError = RuleError(code: string, message: string)

  /** Whether `value` passes `rule`; a length bound counts characters. */
  predicate Passes(value: string, rule: Rule, o: Oracle)
  {
    match rule
    case Email(_) => o.isEmail(value)
    case Length(min, _) => |value| >= min
    case Pattern(cls, _) => IsMatch(value, cls)
    case Url(_) => o.isUrl(value)
  }

  function ErrorOf(rule: Rule): RuleError
  {
    match rule
    case Email(m) => RuleError("email", m)
    case Length(_, m) => RuleError("length", m)
    case Pattern(_, m) => RuleError("regex", m)
    case Url(m) => RuleError("url", m)
  }

  /** Every rule of a field is checked; the failures are reported in declaration order. */
  function FieldErrors(value: string, rules: seq<Rule>, o: Oracle): (errs: seq<RuleError>)
    ensures |errs| <= |rules|
    ensures errs == [] <==> forall i :: 0 <= i < |rules| ==> Passes(value, rules[i], o)
    ensures forall e :: e in errs ==> exists i :: 0 <= i < |rules| && !Passes(value, rules[i], o) && e == ErrorOf(rules[i])
    ensures forall i :: 0 <= i < |rules| && !Passes(value, rules[i], o) ==> ErrorOf(rules[i]) in errs
  {
    if rules == [] then []
    else
      var rest := FieldErrors(value, rules[1..], o);
      assert forall i :: 1 <= i < |rules| ==> rules[i] == rules[1..][i - 1];
      if Passes(value, rules[0], o) then rest else [ErrorOf(rules[0])] + rest
  }

  /** The errors of a struct, by field; a field without errors has no entry. */
  type ValidationErrors = map<string, seq<RuleError>>

  function WithField(errs: ValidationErrors, field: string, fieldErrors: seq<RuleError>): ValidationErrors
  {
    if fieldErrors == [] then errs else errs[field := fieldErrors]
  }

  /** An `Option` field is checked only when it is present. */
  function OptionalFieldErrors(value: Option<string>, rules: seq<Rule>, o: Oracle): seq<RuleError>
  {
    match value
    case None => []
    case Some(v) => FieldErrors(v, rules, o)
  }

  // ---------------------------------------------------------------------------
  // Request bodies

  const NewUserEmailRules: seq<Rule> := [Email("must be a valid email")]
  const NewUserPasswordRules: seq<Rule> :=
    [Length(8, " Password must have at least 8 characters"),
     Pattern(AsciiAlphabet, "Password must have at least one alphabet"),
     Pattern(AsciiDigit, "Password must have at least one number")]

  /** The sign-up body. */
  datatype NewUser = NewUser(email: string, password: string) {
    function Validate(o: Oracle): ValidationErrors
    {
      var errs := WithField(map[], "email", FieldErrors(email, NewUserEmailRules, o));
      WithField(errs, "password", FieldErrors(password, NewUserPasswordRules, o))
    }
  }

  const SignInEmailRules: seq<Rule> := [Email("must be a valid email")]
  const SignInPasswordRules: seq<Rule> :=
    [Length(8, " Password must have at least 8 characters"),
     Pattern(AsciiAlphabet, "Password must have at least one alphabet"),
     Pattern(AsciiDigit, "Password must have at least one number")]

  /** The sign-in body. */
  datatype SignInWithEmail = SignInWithEmail(email: string, password: string) {
    function Validate(o: Oracle): ValidationErrors
    {
      var errs := WithField(map[], "email", FieldErrors(email, SignInEmailRules, o));
      WithField(errs, "password", FieldErrors(password, SignInPasswordRules, o))
    }
  }

  const FullNameRules: seq<Rule> := [Length(3, "must be at least 3 characters")]
  const ImageRules: seq<Rule> := [Url("image must be a valid URL")]

  /** The profile patch: each field may be absent. */
  datatype UpdateProfile = UpdateProfile(fullName: Option<string>, image: Option<string>) {
    function Validate(o: Oracle): ValidationErrors
    {
      var errs := WithField(map[], "full_name", OptionalFieldErrors(fullName, FullNameRules, o));
      WithField(errs, "image", OptionalFieldErrors(image, ImageRules, o))
    }

    /** The patch as column/value pairs: both columns are always present, an absent field as "". */
    method AsHashmap() returns (m: map<string, string>)
      ensures m.Keys == {"full_name", "image"} && |m| == 2
      ensures m["full_name"] == fullName.GetOr("")
      ensures m["image"] == image.GetOr("")
    {
      m := map[];
      match fullName {
        case Some(x) =>
          m := m["full_name" := x];
        case None =>
          m := m["full_name" := ""];
      }
      match image {
        case Some(x) =>
          m := m["image" := x];
        case None =>
          m := m["image" := ""];
      }
    }
  }

  // ---------------------------------------------------------------------------
  // What the rules mean

  /** The password policy: at least 8 characters, an ASCII letter and an ASCII digit. */
  predicate PasswordAcceptable(p: string)
  {
    |p| >= 8 && Contains(p, AsciiAlphabet) && Contains(p, AsciiDigit)
  }

  /** Each unmet part of the password policy is reported, all of them, in declaration order. */
  lemma PasswordErrorsExact(p: string, o: Oracle)
    ensures FieldErrors(p, NewUserPasswordRules, o) ==
      (if |p| < 8 then [RuleError("length", " Password must have at least 8 characters")] else []) +
      (if !Contains(p, AsciiAlphabet) then [RuleError("regex", "Password must have at least one alphabet")] else []) +
      (if !Contains(p, AsciiDigit) then [RuleError("regex", "Password must have at least one number")] else [])
    ensures FieldErrors(p, NewUserPasswordRules, o) == [] <==> PasswordAcceptable(p)
  {
    IsMatchIff(p, AsciiAlphabet);
    IsMatchIff(p, AsciiDigit);
    var rules := NewUserPasswordRules;
    var lengthErr := if |p| < 8 then [ErrorOf(rules[0])] else [];
    var alphaErr := if !Contains(p, AsciiAlphabet) then [ErrorOf(rules[1])] else [];
    var digitErr := if !Contains(p, AsciiDigit) then [ErrorOf(rules[2])] else [];
    assert rules[1..][1..][1..] == [];
    assert FieldErrors(p, rules[1..][1..], o) == digitErr;
    assert FieldErrors(p, rules[1..], o) == alphaErr + digitErr;
    assert FieldErrors(p, rules, o) == lengthErr + (alphaErr + digitErr);
  }

  /** A sign-up body is accepted exactly when the email passes and the password meets the policy. */
  lemma NewUserValidIff(u: NewUser, o: Oracle)
    ensures u.Validate(o) == map[] <==> o.isEmail(u.email) && PasswordAcceptable(u.password)
    ensures "password" in u.Validate(o) <==> !PasswordAcceptable(u.password)
    ensures "email" in u.Validate(o) <==> !o.isEmail(u.email)
  {
    PasswordErrorsExact(u.password, o);
    var e := FieldErrors(u.email, NewUserEmailRules, o);
    var pw := FieldErrors(u.password, NewUserPasswordRules, o);
    assert e == [] <==> o.isEmail(u.email);
    var first := WithField(map[], "email", e);
    assert "email" in first <==> e != [];
    assert "password" !in first;
    assert u.Validate(o) == WithField(first, "password", pw);
    if pw != [] {
      assert "password" in u.Validate(o);
    }
    if e != [] {
      assert "email" in u.Validate(o);
    }
  }

  /** The sign-in body declares the same rules, so it would be judged exactly like a sign-up body. */
  lemma SignInRulesMatchNewUser(email: string, password: string, o: Oracle)
    ensures SignInEmailRules == NewUserEmailRules && SignInPasswordRules == NewUserPasswordRules
    ensures SignInWithEmail(email, password).Validate(o) == NewUser(email, password).Validate(o)
  {
  }

  /** A present full name shorter than 3 characters is rejected with the length message. */
  lemma ShortFullNameRejected(p: UpdateProfile, o: Oracle)
    requires p.fullName.Some? && |p.fullName.value| < 3
    ensures "full_name" in p.Validate(o)
    ensures p.Validate(o)["full_name"] == [RuleError("length", "must be at least 3 characters")]
  {
    assert FullNameRules[1..] == [];
  }

  /** A patch is accepted exactly when each present field passes its rule; absent fields are not checked. */
  lemma UpdateProfileValidIff(p: UpdateProfile, o: Oracle)
    ensures p.Validate(o) == map[] <==>
      (p.fullName.None? || |p.fullName.value| >= 3) && (p.image.None? || o.isUrl(p.image.value))
  {
    var f := OptionalFieldErrors(p.fullName, FullNameRules, o);
    var i := OptionalFieldErrors(p.image, ImageRules, o);
    assert f == [] <==> (p.fullName.None? || |p.fullName.value| >= 3);
    assert i == [] <==> (p.image.None? || o.isUrl(p.image.value));
    var first := WithField(map[], "full_name", f);
    assert "full_name" in first <==> f != [];
    if i != [] {
      assert "image" in p.Validate(o);
    }
    if f != [] {
      assert "full_name" in p.Validate(o);
    }
  }
}
