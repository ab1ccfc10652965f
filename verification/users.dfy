/** The `users` table and the two operations on it: registration with a
    duplicate check and login by comparing password digests.

    `hash_password` (SHA-256, hex-encoded) is passed in as the function
    `hash`; all the store relies on is that it is a function, so the same
    password always yields the same stored digest.

    MySQL compares `VARCHAR` values under the column's collation, which the
    schema leaves to the server default.  It is passed in as `collate`, a
    key function: `a = b` holds in SQL exactly when `collate(a) ==
    collate(b)`.  With the stock case-insensitive default, `collate("Alice")
    == collate("alice")`; the model assumes nothing more of it. */
module Users {
  import opened Common

  datatype Role = Client | Support

  /** One row of `users`: the name, the digest of the password, the role. */
  datatype User = User(username: string, hashedPassword: string, role: Role)

  /** The rows of `users` in insertion order. */
  type UserTable = seq<User>

  /** The `UNIQUE` constraint on `username`, enforced under the collation. */
  predicate UniqueUsernames(users: UserTable, collate: string -> string) {
    forall i, j :: 0 <= i < j < |users| ==> collate(users[i].username) != collate(users[j].username)
  }

  /** `SELECT COUNT(*) FROM users WHERE username = %s` is non-zero. */
  predicate Taken(users: UserTable, username: string, collate: string -> string) {
    exists i :: 0 <= i < |users| && collate(users[i].username) == collate(username)
  }

  /** `register_user`: refuses a taken name and leaves the table alone;
      otherwise appends exactly the row (name, digest, role). */
  function Register(users: UserTable, username: string, password: string, role: Role,
                    hash: string -> string, collate: string -> string): (r: (bool, UserTable))
    ensures r.0 <==> !Taken(users, username, collate)
    ensures !r.0 ==> r.1 == users
    ensures r.0 ==> |r.1| == |users| + 1 && r.1[..|users|] == users
    ensures r.0 ==> r.1[|users|] == User(username, hash(password), role)
    ensures UniqueUsernames(users, collate) ==> UniqueUsernames(r.1, collate)
  {
    if Taken(users, username, collate) then (false, users)
    else
      var users' := users + [User(username, hash(password), role)];
      assert users'[..|users|] == users;
      (true, users')
  }

  /** A name that collates like a stored one is refused, even when it is
      spelt differently: with a case-insensitive collation, `alice` cannot
      register once `Alice` has. */
  lemma CollidingNameRefused(users: UserTable, first: string, second: string, p1: string, p2: string,
                             r1: Role, r2: Role, hash: string -> string, collate: string -> string)
    requires collate(first) == collate(second)
    ensures !Register(Register(users, first, p1, r1, hash, collate).1, second, p2, r2, hash, collate).0
  {
    var users' := Register(users, first, p1, r1, hash, collate).1;
    if !Taken(users, first, collate) {
      assert users'[|users|].username == first;
    }
  }

  /** `SELECT * FROM users WHERE username = %s AND hashed_password = %s`
      followed by `fetchone()`: the first row carrying both values, each
      compared under the collation. */
  function FindUser(users: UserTable, username: string, digest: string,
                    collate: string -> string): (r: Option<User>)
    ensures r.Some? <==> (exists i :: 0 <= i < |users| && collate(users[i].username) == collate(username)
                                                      && collate(users[i].hashedPassword) == collate(digest))
    ensures r.Some? ==> (r.value in users && collate(r.value.username) == collate(username)
                         && collate(r.value.hashedPassword) == collate(digest))
  {
    if users == [] then None
    else if collate(users[0].username) == collate(username)
            && collate(users[0].hashedPassword) == collate(digest) then Some(users[0])
    else
      var r := FindUser(users[1..], username, digest, collate);
      assert forall i :: 1 <= i < |users| ==> users[i] == users[1..][i - 1];
      r
  }

  /** What `login_user` hands back: the row and its role, or `(None, None)`. */
  datatype Login = LoggedIn(user: User, role: Role) | Rejected

  /** `login_user`: hashes the password and looks the pair up.  The role is
      the stored one; the `"Client"` default of `user.get` never applies
      because `SELECT *` always returns a `role` key.  The row returned
      carries the stored spelling of the name. */
  function LoginUser(users: UserTable, username: string, password: string,
                     hash: string -> string, collate: string -> string): (r: Login)
    ensures r.LoggedIn? <==> (exists i :: 0 <= i < |users|
                                && collate(users[i].username) == collate(username)
                                && collate(users[i].hashedPassword) == collate(hash(password)))
    ensures r.LoggedIn? ==> (r.user in users && collate(r.user.username) == collate(username)
                             && collate(r.user.hashedPassword) == collate(hash(password))
                             && r.role == r.user.role)
  {
    match FindUser(users, username, hash(password), collate)
    case Some(u) => LoggedIn(u, u.role)
    case None => Rejected
  }

  /** With unique names, login under any spelling that collates like a
      stored name succeeds exactly when that row's digest matches the
      password's, and returns that row. */
  lemma LoginChecksStoredDigest(users: UserTable, i: nat, name: string, password: string,
                                hash: string -> string, collate: string -> string)
    requires UniqueUsernames(users, collate) && i < |users|
    requires collate(name) == collate(users[i].username)
    ensures LoginUser(users, name, password, hash, collate).LoggedIn?
            <==> collate(users[i].hashedPassword) == collate(hash(password))
    ensures LoginUser(users, name, password, hash, collate).LoggedIn? ==>
            LoginUser(users, name, password, hash, collate) == LoggedIn(users[i], users[i].role)
  {
    var r := LoginUser(users, name, password, hash, collate);
    if r.LoggedIn? {
      var j :| 0 <= j < |users| && users[j] == r.user;
      if j < i {
        assert collate(users[j].username) != collate(users[i].username);
      } else if j > i {
        assert collate(users[i].username) != collate(users[j].username);
      }
    }
  }

  /** Registering and then logging in with the same password yields the
      role chosen at registration: the digest compared at login equals the
      digest stored at registration. */
  lemma RegisterThenLogin(users: UserTable, username: string, password: string, role: Role,
                          hash: string -> string, collate: string -> string)
    requires !Taken(users, username, collate)
    ensures LoginUser(Register(users, username, password, role, hash, collate).1, username, password, hash, collate)
            == LoggedIn(User(username, hash(password), role), role)
  {
    var users' := Register(users, username, password, role, hash, collate).1;
    var u := User(username, hash(password), role);
    assert users' == users + [u];
    FirstMatchIsNew(users, u, hash(password), collate);
  }

  /** After registering, a password whose digest differs under the
      collation is refused. */
  lemma RegisterThenWrongPassword(users: UserTable, username: string, password: string,
                                  other: string, role: Role, hash: string -> string,
                                  collate: string -> string)
    requires !Taken(users, username, collate)
    requires collate(hash(other)) != collate(hash(password))
    ensures LoginUser(Register(users, username, password, role, hash, collate).1, username, other, hash, collate)
            == Rejected
  {
    var users' := Register(users, username, password, role, hash, collate).1;
    assert users' == users + [User(username, hash(password), role)];
  }

  lemma {:induction false} FirstMatchIsNew(users: UserTable, u: User, digest: string,
                                           collate: string -> string)
    requires !Taken(users, u.username, collate) && u.hashedPassword == digest
    ensures FindUser(users + [u], u.username, digest, collate) == Some(u)
  {
    if users == [] {
    } else {
      assert (users + [u])[1..] == users[1..] + [u];
      assert collate(users[0].username) != collate(u.username);
      assert !Taken(users[1..], u.username, collate);
      FirstMatchIsNew(users[1..], u, digest, collate);
    }
  }
}
