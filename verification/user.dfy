/**
 * The `User` entity: identity, credentials, and the ordered role list whose
 * default is filled in by the `@PrePersist` hook.
 */
module UserEntity {

  type UserId = int

  /**
   * A user row. `roles` holds the `Role.role` strings in list order; a null
   * list and an empty one are both the empty sequence. Each role belongs to the
   * user whose list holds it.
   */
  datatype User = User(
    id: UserId,
    username: string,
    password: string,
    email: string,
    phone: string,
    roles: seq<string>)

  /** The role name `prePersist` gives a user saved without roles. */
  const DefaultRole: string := "ROLE_USER"

  /** The prefix both authority mappings put in front of every role name. */
  const AuthorityPrefix: string := "ROLE_"

  /** `prePersist`: a null or empty role list becomes the single default role. */
  function PrePersist(u: User): (r: User)
    ensures |r.roles| > 0
    ensures r == u.(roles := r.roles)
    ensures |u.roles| > 0 ==> r == u
    ensures |u.roles| == 0 ==> r.roles == [DefaultRole]
  {
    if |u.roles| == 0 then u.(roles := [DefaultRole]) else u
  }

  lemma PrePersistIdempotent(u: User)
    ensures PrePersist(PrePersist(u)) == PrePersist(u)
  {
  }

  /**
   * `"ROLE_" + role.getRole()` for each role, in list order: the authority
   * list both `JwtFilter` and `UserDetailsServiceConfigImpl` build.
   */
  function Authorities(roles: seq<string>): (r: seq<string>)
    ensures |r| == |roles|
    ensures forall i :: 0 <= i < |roles| ==> r[i] == AuthorityPrefix + roles[i]
  {
    seq(|roles|, i requires 0 <= i < |roles| => AuthorityPrefix + roles[i])
  }

  /** A role grants the authority `"ROLE_" + name` exactly when the name is in the list. */
  lemma AuthorityIffRole(roles: seq<string>, name: string)
    ensures AuthorityPrefix + name in Authorities(roles) <==> name in roles
  {
    var r := Authorities(roles);
    if AuthorityPrefix + name in r {
      var i :| 0 <= i < |r| && r[i] == AuthorityPrefix + name;
      assert (AuthorityPrefix + roles[i])[|AuthorityPrefix|..] == roles[i];
      assert (AuthorityPrefix + name)[|AuthorityPrefix|..] == name;
    }
    if name in roles {
      var i :| 0 <= i < |roles| && roles[i] == name;
      assert r[i] == AuthorityPrefix + name;
    }
  }

  /**
   * The default role already carries the prefix, so a user saved without roles
   * is granted `"ROLE_ROLE_USER"`, and never `"ROLE_USER"`.
   */
  lemma DefaultRoleDoublePrefix(u: User)
    requires |u.roles| == 0
    ensures Authorities(PrePersist(u).roles) == ["ROLE_ROLE_USER"]
    ensures "ROLE_USER" !in Authorities(PrePersist(u).roles)
  {
    assert AuthorityPrefix + DefaultRole == "ROLE_ROLE_USER";
  }
}
