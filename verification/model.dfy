/** The value classes `TixUser` and `TixInstallation`: a validating
    constructor, unvalidated single-field setters, field-wise `equals` and
    the `HashCodeBuilder(17, 37)` hash. A Java `null` string is `None`. */
module Model {
  import opened Wrappers
  import opened Bytes

  datatype TixUser = TixUser(id: Int64, username: Option<string>, enabled: bool)

  datatype TixInstallation = TixInstallation(id: Int64, name: Option<string>, publicKey: Option<string>)

  /** The argument `equals(Object)` receives: `null`, one of the two value
      classes, or an object of any other class. */
  datatype Obj = Null | User(user: TixUser) | Installation(installation: TixInstallation) | Other

  /** The `IllegalArgumentException` a constructor throws. */
  datatype ModelError = IllegalArgument

  /** A string the constructors accept: neither `null` nor empty. */
  predicate Present(s: Option<string>) {
    s.Some? && |s.value| > 0
  }

  // ---------------------------------------------------------------------
  // TixUser

  /** The no-argument constructor Jackson uses: every field at its default. */
  function EmptyUser(): TixUser {
    TixUser(0, None, false)
  }

  /** `new TixUser(id, username, enabled)`. */
  function NewUser(id: Int64, username: Option<string>, enabled: bool): (r: Result<TixUser, ModelError>)
    ensures r.Success? <==> id > 0 && Present(username)
    ensures r.Success? ==> r.value.id == id && r.value.username == username && r.value.enabled == enabled
  {
    if id > 0 && Present(username) then Success(TixUser(id, username, enabled))
    else Failure(IllegalArgument)
  }

  function SetUserId(u: TixUser, id: Int64): (r: TixUser)
    ensures r.id == id && r.username == u.username && r.enabled == u.enabled
  {
    u.(id := id)
  }

  function SetUsername(u: TixUser, username: Option<string>): (r: TixUser)
    ensures r.username == username && r.id == u.id && r.enabled == u.enabled
  {
    u.(username := username)
  }

  function SetEnabled(u: TixUser, enabled: bool): (r: TixUser)
    ensures r.enabled == enabled && r.id == u.id && r.username == u.username
  {
    u.(enabled := enabled)
  }

  /** `TixUser.equals`: only a `TixUser` with the same id, enabled flag and
      username is equal; `null` and other classes never are. */
  function UserEquals(u: TixUser, o: Obj): bool {
    match o
    case User(v) => u.id == v.id && u.enabled == v.enabled && u.username == v.username
    case _ => false
  }

  /** `TixUser.hashCode`. */
  function UserHash(u: TixUser): Int32 {
    HashBool(HashString(HashLong(HashSeed, u.id), u.username), u.enabled)
  }

  // ---------------------------------------------------------------------
  // TixInstallation

  function EmptyInstallation(): TixInstallation {
    TixInstallation(0, None, None)
  }

  /** `new TixInstallation(id, name, publicKey)`. */
  function NewInstallation(id: Int64, name: Option<string>, publicKey: Option<string>): (r: Result<TixInstallation, ModelError>)
    ensures r.Success? <==> id > 0 && Present(name) && Present(publicKey)
    ensures r.Success? ==> r.value.id == id && r.value.name == name && r.value.publicKey == publicKey
  {
    if id > 0 && Present(name) && Present(publicKey) then Success(TixInstallation(id, name, publicKey))
    else Failure(IllegalArgument)
  }

  function SetInstallationId(i: TixInstallation, id: Int64): (r: TixInstallation)
    ensures r.id == id && r.name == i.name && r.publicKey == i.publicKey
  {
    i.(id := id)
  }

  function SetName(i: TixInstallation, name: Option<string>): (r: TixInstallation)
    ensures r.name == name && r.id == i.id && r.publicKey == i.publicKey
  {
    i.(name := name)
  }

  function SetPublicKey(i: TixInstallation, publicKey: Option<string>): (r: TixInstallation)
    ensures r.publicKey == publicKey && r.id == i.id && r.name == i.name
  {
    i.(publicKey := publicKey)
  }

  /** `TixInstallation.equals`: only a `TixInstallation` with the same id,
      name and public key is equal. */
  function InstallationEquals(i: TixInstallation, o: Obj): bool {
    match o
    case Installation(j) => i.id == j.id && i.name == j.name && i.publicKey == j.publicKey
    case _ => false
  }

  /** `TixInstallation.hashCode`. */
  function InstallationHash(i: TixInstallation): Int32 {
    HashString(HashString(HashLong(HashSeed, i.id), i.name), i.publicKey)
  }

  // ---------------------------------------------------------------------
  // HashCodeBuilder(17, 37)

  const HashSeed: Int32 := 17
  const HashMultiplier: int := 37

  /** `append(long)`: the low 32 bits of `v ^ (v >> 32)`, that is the low
      and high halves of `v` exclusive-or'ed, as an `int`. */
  function HashLong(total: Int32, v: Int64): Int32 {
    var u := if v >= 0 then v else v + TwoTo64;
    var low := (u % TwoTo32) as bv32;
    var high := (u / TwoTo32) as bv32;
    WrapInt32(total * HashMultiplier + WrapInt32((low ^ high) as int))
  }

  /** `append(Object)` on a string: a `null` contributes nothing. */
  function HashString(total: Int32, s: Option<string>): Int32 {
    match s
    case None => WrapInt32(total * HashMultiplier)
    case Some(t) => WrapInt32(total * HashMultiplier + StringHash(t))
  }

  /** `append(boolean)`: `true` adds 0 and `false` adds 1. */
  function HashBool(total: Int32, b: bool): Int32 {
    WrapInt32(total * HashMultiplier + (if b then 0 else 1))
  }

  /** `String.hashCode`: `h = 31 h + c` over the characters. */
  function StringHash(s: string): Int32 {
    if |s| == 0 then 0 else WrapInt32(31 * StringHash(s[..|s| - 1]) + s[|s| - 1] as int)
  }

  /** Adding one to an `int` moves its wrapped value by one, modulo 2^32. */
  lemma WrapSucc(x: int)
    ensures WrapInt32(x + 1) == if WrapInt32(x) == TwoTo31 - 1 then -TwoTo31 else WrapInt32(x) + 1
  {
  }

  // ---------------------------------------------------------------------
  // Properties

  /** `TixUser.equals` holds exactly of the same user value: reflexive, and
      false for `null`, an installation or any other object. */
  lemma UserEqualsIsValueEquality(u: TixUser, o: Obj)
    ensures UserEquals(u, o) <==> o == User(u)
    ensures UserEquals(u, User(u))
    ensures !UserEquals(u, Null) && !UserEquals(u, Other)
  {
  }

  /** Equal users hash equally. */
  lemma EqualUsersHashEqually(u: TixUser, v: TixUser)
    requires UserEquals(u, User(v))
    ensures UserHash(u) == UserHash(v)
  {
  }

  /** Toggling the enabled flag changes both `equals` and the hash: the flag
      is the last value appended, contributing 0 or 1. */
  lemma ToggleEnabledChangesHash(u: TixUser)
    ensures !UserEquals(u, User(SetEnabled(u, !u.enabled)))
    ensures UserHash(SetEnabled(u, !u.enabled)) != UserHash(u)
  {
    var t := HashString(HashLong(HashSeed, u.id), u.username);
    WrapSucc(t * HashMultiplier);
  }

  /** `TixInstallation.equals` holds exactly of the same installation value. */
  lemma InstallationEqualsIsValueEquality(i: TixInstallation, o: Obj)
    ensures InstallationEquals(i, o) <==> o == Installation(i)
    ensures InstallationEquals(i, Installation(i))
    ensures !InstallationEquals(i, Null) && !InstallationEquals(i, Other)
  {
  }

  /** Equal installations hash equally. */
  lemma EqualInstallationsHashEqually(i: TixInstallation, j: TixInstallation)
    requires InstallationEquals(i, Installation(j))
    ensures InstallationHash(i) == InstallationHash(j)
  {
  }

  /** The setters do not validate: a constructed user can be given an id
      the constructor refuses. */
  lemma SettersSkipValidation(u: TixUser)
    requires NewUser(u.id, u.username, u.enabled) == Success(u)
    ensures NewUser(SetUserId(u, 0).id, SetUserId(u, 0).username, SetUserId(u, 0).enabled).Failure?
    ensures SetUserId(SetUserId(u, 0), u.id) == u
  {
  }
}
