/**
 * The User schema's field constraints. The password hashing and token methods
 * of the schema are not part of this model.
 */
module UserModel {
  import opened Js
  import opened Common

  datatype User = User(name: string, email: string, password: string, role: string)

  /** A user document as submitted: `role` may be left out. */
  datatype RawUser = RawUser(name: string, email: string, password: string, role: Option<string>)

  /**
   * The setters and the default: every string is trimmed, the email is
   * lower-cased, the role upper-cased, and a missing role becomes MEMBER.
   */
  function CastUser(raw: RawUser): (u: User)
    ensures IsTrimmed(u.name) && IsTrimmed(u.email) && IsTrimmed(u.password) && IsTrimmed(u.role)
    ensures IsLower(u.email)
    ensures raw.role.None? ==> u.role == MEMBER
  {
    User(Trim(raw.name), CastEmail(raw.email), Trim(raw.password), CastRole(raw.role))
  }

  function CastEmail(email: string): (e: string)
    ensures IsTrimmed(e) && IsLower(e) && Utf16Length(e) == Utf16Length(Trim(email))
  {
    LowerPreservesTrimmed(Trim(email));
    LowerKeepsLength(Trim(email));
    ToLower(Trim(email))
  }

  function CastRole(role: Option<string>): (r: string)
    ensures IsTrimmed(r)
    ensures role.None? ==> r == MEMBER
  {
    match role
    case None =>
      assert IsTrimmed(MEMBER);
      MEMBER
    case Some(given) =>
      UpperPreservesTrimmed(Trim(given));
      ToUpper(Trim(given))
  }

  /** A document that every validator of the schema accepts. */
  predicate ValidUser(u: User) {
    && IsTrimmed(u.name) && 2 <= Utf16Length(u.name) <= 50
    && IsTrimmed(u.email) && IsLower(u.email) && 5 <= Utf16Length(u.email) <= 254
    && IsTrimmed(u.password) && 8 <= Utf16Length(u.password) <= 128
    && u.role in {ADMIN, MEMBER}
  }

  predicate Accepts(raw: RawUser) {
    ValidUser(CastUser(raw))
  }

  /** What the validators check, stated on the submitted values. */
  lemma AcceptsIff(raw: RawUser)
    ensures Accepts(raw) <==>
      && 2 <= Utf16Length(Trim(raw.name)) <= 50
      && 5 <= Utf16Length(Trim(raw.email)) <= 254
      && 8 <= Utf16Length(Trim(raw.password)) <= 128
      && (raw.role.None? || ToUpper(Trim(raw.role.value)) in {ADMIN, MEMBER})
  {
  }

  /** The role enum is case-insensitive on input: "admin" is stored as ADMIN. */
  lemma LowerCaseRoleAccepted(raw: RawUser)
    requires raw.role == Some("admin")
    ensures CastUser(raw).role == ADMIN
  {
    var a := "admin";
    assert IsTrimmed(a);
    TrimOfTrimmed(a);
    assert ToUpper(a) == ADMIN;
  }

  /** A stored user is a fixed point of the setters. */
  lemma CastOfValid(u: User)
    requires ValidUser(u)
    ensures CastUser(RawUser(u.name, u.email, u.password, Some(u.role))) == u
  {
    var c := CastUser(RawUser(u.name, u.email, u.password, Some(u.role)));
    CastRoleOfValid(u);
    EmailFixed(u.email);
    TrimOfTrimmed(u.name);
    TrimOfTrimmed(u.password);
    assert c.name == u.name && c.email == u.email && c.password == u.password && c.role == u.role;
  }

  lemma CastRoleOfValid(u: User)
    requires ValidUser(u)
    ensures CastRole(Some(u.role)) == u.role
  {
    if u.role == ADMIN {
      RoleFixed(ADMIN);
    } else {
      RoleFixed(MEMBER);
    }
  }

  lemma EmailFixed(email: string)
    requires IsTrimmed(email) && IsLower(email)
    ensures CastEmail(email) == email
  {
    TrimOfTrimmed(email);
    LowerOfLower(email);
  }

  /** The stored role names are left alone by the setters. */
  lemma RoleFixed(role: string)
    requires role == ADMIN || role == MEMBER
    ensures CastRole(Some(role)) == role
  {
    assert IsTrimmed(role) && IsUpper(role);
    TrimOfTrimmed(role);
    UpperOfUpper(role);
  }

  /** The `unique: true` index on `email`. */
  predicate UniqueEmails(users: map<Id, User>) {
    forall i, j | i in users && j in users && users[i].email == users[j].email :: i == j
  }
}
