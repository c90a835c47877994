/**
 * The user table with the lookups the modelled code calls on it:
 * `findByEmail`, `findByUsername`, `findById` and `save`. The repository
 * interface itself (UserRepository.java) is not part of this model; its
 * finders are Spring Data derived queries, so a lookup that matches several
 * rows raises instead of choosing one.
 */
module UserRepository {
  import opened Wrappers
  import opened Store
  import opened UserEntity

  type Users = seq<User>

  /** `id` is the primary key. */
  predicate Valid(us: Users) {
    forall i, j :: 0 <= i < |us| && 0 <= j < |us| && us[i].id == us[j].id ==> i == j
  }

  function WithEmail(email: string): User -> bool {
    (u: User) => u.email == email
  }

  function WithUsername(name: string): User -> bool {
    (u: User) => u.username == name
  }

  /** `findByEmail`: nothing, the one user with that email, or a non-unique result. */
  function FindByEmail(us: Users, email: string): (r: Lookup<User>)
    ensures r.NotFound? <==> forall i :: 0 <= i < |us| ==> us[i].email != email
    ensures r.Found? ==> r.value in us && r.value.email == email
    ensures r.Found? ==> forall i :: 0 <= i < |us| && us[i].email == email ==> us[i] == r.value
  {
    var r := FindUnique(us, WithEmail(email));
    assert r.Found? ==> forall i :: 0 <= i < |us| && us[i].email == email ==> us[i] == r.value by {
      if r.Found? {
        var f := Filter(us, WithEmail(email));
        assert |f| == 1;
      }
    }
    r
  }

  /** `findByUsername`: nothing, the one user with that name, or a non-unique result. */
  function FindByUsername(us: Users, name: string): (r: Lookup<User>)
    ensures r.NotFound? <==> forall i :: 0 <= i < |us| ==> us[i].username != name
    ensures r.Found? ==> r.value in us && r.value.username == name
    ensures r.Found? ==> forall i :: 0 <= i < |us| && us[i].username == name ==> us[i] == r.value
  {
    var r := FindUnique(us, WithUsername(name));
    assert r.Found? ==> forall i :: 0 <= i < |us| && us[i].username == name ==> us[i] == r.value by {
      if r.Found? {
        var f := Filter(us, WithUsername(name));
        assert |f| == 1;
      }
    }
    r
  }

  /** Two distinct rows sharing a username make `findByUsername` non-unique. */
  lemma SharedUsernameIsNonUnique(us: Users, i: int, j: int)
    requires 0 <= i < |us| && 0 <= j < |us| && i != j && us[i].username == us[j].username
    requires Valid(us)
    ensures FindByUsername(us, us[i].username).NonUnique?
  {
  }

  function WithId(id: UserId): User -> bool {
    (u: User) => u.id == id
  }

  /** `findById`: the row with that primary key, if any. */
  function FindById(us: Users, id: UserId): (r: Option<User>)
    ensures r.None? <==> forall i :: 0 <= i < |us| ==> us[i].id != id
    ensures r.Some? ==> r.value in us && r.value.id == id
  {
    Find(us, WithId(id))
  }

  /** With a primary key, `findById` returns the row that has the key. */
  lemma FindByIdFindsRow(us: Users, i: int)
    requires Valid(us) && 0 <= i < |us|
    ensures FindById(us, us[i].id) == Some(us[i])
  {
  }

  /** The key an `IDENTITY` column hands the next inserted row: above every key in use. */
  function NextId(us: Users): (id: UserId)
    ensures forall i :: 0 <= i < |us| ==> us[i].id < id
    decreases |us|
  {
    if |us| == 0 then 1
    else
      var rest := NextId(us[1..]);
      assert forall i :: 1 <= i < |us| ==> us[i] == us[1..][i - 1];
      if us[0].id < rest then rest else us[0].id + 1
  }

  /**
   * `save` of a new user: `prePersist` fills in the roles, the row gets the
   * next key and is appended.
   */
  function Persist(us: Users, u: User): (r: (User, Users))
    ensures r.0 == PrePersist(u).(id := r.0.id)
    ensures forall i :: 0 <= i < |us| ==> us[i].id != r.0.id
    ensures r.1 == us + [r.0]
    ensures Valid(us) ==> Valid(r.1)
  {
    var saved := PrePersist(u).(id := NextId(us));
    (saved, us + [saved])
  }

  /** Writing back a changed row under its key; every other row is left alone. */
  function Replace(us: Users, u: User): (r: Users)
    ensures |r| == |us|
    ensures forall i :: 0 <= i < |us| ==> r[i] == if us[i].id == u.id then u else us[i]
    ensures Valid(us) ==> Valid(r)
  {
    seq(|us|, i requires 0 <= i < |us| => if us[i].id == u.id then u else us[i])
  }

  /** Appending a row keeps every key that was found findable. */
  lemma FindByIdAppend(us: Users, u: User, id: UserId)
    requires FindById(us, id).Some?
    ensures FindById(us + [u], id).Some?
  {
    var i :| 0 <= i < |us| && us[i].id == id;
    assert (us + [u])[i].id == id;
  }

  /** Writing back a row under an existing key keeps every key findable. */
  lemma FindByIdReplace(us: Users, u: User, id: UserId)
    requires FindById(us, id).Some?
    ensures FindById(Replace(us, u), id).Some?
  {
    var i :| 0 <= i < |us| && us[i].id == id;
    if us[i].id == u.id {
      assert Replace(us, u)[i].id == id;
    } else {
      assert Replace(us, u)[i] == us[i];
    }
  }
}
