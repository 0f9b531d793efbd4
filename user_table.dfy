/** The `users` table and the statements the auth handlers run against it. */
module UserTable {
  import opened Outcomes
  import opened Credentials

  /** One row: `(id, name, email, password, email_verified, created_at, last_login)`;
      `last_login` is NULL until the first login. */
  datatype UserRow = UserRow(
    id: nat, name: string, email: string, password: Digest,
    emailVerified: bool, createdAt: int, lastLogin: Option<int>)

  /** `SELECT * FROM users WHERE email = ?` followed by `users[0]`. */
  function FindByEmail(users: seq<UserRow>, email: string): (r: Option<UserRow>)
    ensures r.Some? ==> r.value in users && r.value.email == email
    ensures r.None? <==> forall u :: u in users ==> u.email != email
  {
    if users == [] then None
    else if users[0].email == email then Some(users[0])
    else FindByEmail(users[1..], email)
  }

  /** `SELECT ... FROM users WHERE id = ?` followed by `users[0]`. */
  function FindById(users: seq<UserRow>, id: nat): (r: Option<UserRow>)
    ensures r.Some? ==> r.value in users && r.value.id == id
    ensures r.None? <==> forall u :: u in users ==> u.id != id
  {
    if users == [] then None
    else if users[0].id == id then Some(users[0])
    else FindById(users[1..], id)
  }

  /** `UPDATE users SET password = ? WHERE email = ?`. */
  function SetPassword(users: seq<UserRow>, email: string, h: Digest): (r: seq<UserRow>)
    ensures |r| == |users|
    ensures forall i :: 0 <= i < |users| ==>
      r[i] == if users[i].email == email then users[i].(password := h) else users[i]
  {
    if users == [] then []
    else
      var head := if users[0].email == email then users[0].(password := h) else users[0];
      [head] + SetPassword(users[1..], email, h)
  }

  /** `UPDATE users SET last_login = NOW() WHERE id = ?`. */
  function TouchLogin(users: seq<UserRow>, id: nat, now: int): (r: seq<UserRow>)
    ensures |r| == |users|
    ensures forall i :: 0 <= i < |users| ==>
      r[i] == if users[i].id == id then users[i].(lastLogin := Some(now)) else users[i]
  {
    if users == [] then []
    else
      var head := if users[0].id == id then users[0].(lastLogin := Some(now)) else users[0];
      [head] + TouchLogin(users[1..], id, now)
  }

  // The table invariant

  ghost predicate IdsBelow(users: seq<UserRow>, nextId: nat) {
    forall u :: u in users ==> u.id < nextId
  }

  /** Ids grow in insertion order, so in particular they are distinct. */
  ghost predicate IdsIncreasing(users: seq<UserRow>) {
    forall i, j :: 0 <= i < j < |users| ==> users[i].id < users[j].id
  }

  /** No two accounts share an email. */
  ghost predicate EmailsDistinct(users: seq<UserRow>) {
    forall i, j :: 0 <= i < j < |users| ==> users[i].email != users[j].email
  }

  ghost predicate Valid(users: seq<UserRow>, nextId: nat) {
    IdsBelow(users, nextId) && IdsIncreasing(users) && EmailsDistinct(users)
  }

  /** The two UPDATEs keep every row's id and email. */
  ghost predicate SameKeys(a: seq<UserRow>, b: seq<UserRow>) {
    |a| == |b| && forall i :: 0 <= i < |a| ==> a[i].id == b[i].id && a[i].email == b[i].email
  }

  lemma SameKeysKeepValid(a: seq<UserRow>, b: seq<UserRow>, nextId: nat)
    requires Valid(a, nextId) && SameKeys(a, b)
    ensures Valid(b, nextId)
  {
    forall u | u in b ensures u.id < nextId {
      var i :| 0 <= i < |b| && b[i] == u;
      assert a[i] in a;
    }
  }

  /** signup's INSERT keeps the table valid: the new account takes the
      counter's id and an email no account has. */
  lemma InsertKeepsValid(users: seq<UserRow>, nextId: nat, u: UserRow)
    requires Valid(users, nextId)
    requires u.id == nextId && FindByEmail(users, u.email).None?
    ensures Valid(users + [u], nextId + 1)
  {
    var r := users + [u];
    forall i, j | 0 <= i < j < |r| ensures r[i].id < r[j].id && r[i].email != r[j].email {
      assert r[i] == users[i] && users[i] in users;
      if j < |users| {
        assert r[j] == users[j];
      }
    }
  }

  /** A row a lookup returns sits at some index of its table. */
  lemma FoundAt<T>(rows: seq<T>, x: T) returns (k: nat)
    requires x in rows
    ensures k < |rows| && rows[k] == x
  {
    k :| 0 <= k < |rows| && rows[k] == x;
  }

  /** With distinct emails, reset-password's UPDATE changes exactly one
      account: the one with that email, and only its password. */
  lemma SetPasswordChangesOne(users: seq<UserRow>, k: nat, h: Digest)
    requires EmailsDistinct(users) && k < |users|
    ensures SetPassword(users, users[k].email, h) == users[k := users[k].(password := h)]
  {
    var r := SetPassword(users, users[k].email, h);
    var expected := users[k := users[k].(password := h)];
    forall i | 0 <= i < |users| ensures r[i] == expected[i] {
      if i < k {
        assert users[i].email != users[k].email;
      } else if k < i {
        assert users[k].email != users[i].email;
      }
    }
  }

  /** With distinct ids, login's UPDATE changes exactly one account: the one
      that logged in, and only its `last_login`. */
  lemma TouchLoginChangesOne(users: seq<UserRow>, k: nat, now: int)
    requires IdsIncreasing(users) && k < |users|
    ensures TouchLogin(users, users[k].id, now) == users[k := users[k].(lastLogin := Some(now))]
  {
    var r := TouchLogin(users, users[k].id, now);
    var expected := users[k := users[k].(lastLogin := Some(now))];
    forall i | 0 <= i < |users| ensures r[i] == expected[i] {
      if i < k {
        assert users[i].id < users[k].id;
      } else if k < i {
        assert users[k].id < users[i].id;
      }
    }
  }
}
