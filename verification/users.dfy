/** The user registry: the records of users.json and the routines that add,
    delete and look up a user, with salted PBKDF2 password hashes.

    The three copies agree on the shape of a record and on the order of the
    checks. They differ in which name a record is known by: crm.py and
    crm_lib/auth.py take its "user", or its legacy "email" when "user" is
    empty, and crm_project/core/auth.py takes "user" only. Loading and saving
    the file is left to the caller: a routine takes the current list of
    records and returns the list to save. */
module Users {
  import opened Runtime
  import opened Text

  /** Which copy of the registry. */
  datatype Copy = CrmPy | CrmLib | CrmProject

  /** One record of users.json; a missing key is `None`. */
  datatype Record = Record(
    user: Option<string>,
    email: Option<string>,
    role: Option<string>,
    salt: Option<string>,
    hash: Option<string>)

  /** How an add or a delete ends; each copy has its own wording for the
      message that goes with it. */
  datatype Outcome = Created | Deleted | Incomplete | BadRole | Taken | BadName | NotFound

  /** The boolean the routines return beside the message. */
  predicate Succeeded(o: Outcome) {
    o == Created || o == Deleted
  }

  /** The roles a user may have. */
  predicate ValidRole(role: string) {
    role == "admin" || role == "member"
  }

  /** `u.get("user","") or u.get("email","")`, or `u.get("user","")` in
      crm_project. */
  function NameOf(v: Copy, u: Record): string {
    if v == CrmProject || u.user.GetOr([]) != [] then u.user.GetOr([]) else u.email.GetOr([])
  }

  /** The record answers to the lower-cased name `name`. */
  predicate Answers(lib: Lib, v: Copy, u: Record, name: string) {
    lib.lower(NameOf(v, u)) == name
  }

  /** No two records answer to the same name. */
  ghost predicate Distinct(lib: Lib, v: Copy, users: seq<Record>) {
    forall i, j :: 0 <= i < j < |users| ==> lib.lower(NameOf(v, users[i])) != lib.lower(NameOf(v, users[j]))
  }

  /** `str.lower()` maps exactly the empty text to the empty text. */
  ghost predicate LowerKeepsEmpty(lib: Lib) {
    forall s: string {:trigger lib.lower(s)} :: lib.lower(s) == [] <==> s == []
  }

  /** `_hash_pw_pbkdf2(password, salt_hex)`: `(salt, hash)`, where an empty
      salt is replaced by `token`, the caller's `secrets.token_hex(16)`. */
  function HashPw(lib: Lib, password: string, salt: string, token: string): (r: (string, string))
    // a given salt is kept; only a missing one is replaced by the drawn token
    ensures salt != [] ==> r.0 == salt
    ensures salt == [] ==> r.0 == token
    // the hash is the key derived from the password under the salt returned
    ensures r.1 == lib.pbkdf2(password, r.0)
  {
    var s := if salt == [] then token else salt;
    (s, lib.pbkdf2(password, s))
  }

  /** `_verify_pw(password, salt_hex, hash_hex)`; `token` is only used when
      the stored salt is empty. */
  predicate VerifyPw(lib: Lib, password: string, salt: string, hash: string, token: string): (r: bool)
    // with a stored salt the drawn token plays no part: the password
    // verifies exactly when its key under that salt is the stored hash
    ensures salt != [] ==> (r <==> lib.pbkdf2(password, salt) == hash)
  {
    HashPw(lib, password, salt, token).1 == hash
  }

  /** A password verifies against the salt and hash made from it, whatever
      `token` a later check draws. */
  lemma HashThenVerify(lib: Lib, password: string, token: string, later: string)
    requires token != []
    ensures var (s, h) := HashPw(lib, password, [], token);
      s == token && VerifyPw(lib, password, s, h, later)
  {
  }

  /** Hashing again under the salt `HashPw` returned reproduces the pair,
      whatever token is drawn the second time. */
  lemma RehashStable(lib: Lib, password: string, salt: string, token: string, later: string)
    requires salt != [] || token != []
    ensures var (s, h) := HashPw(lib, password, salt, token);
      HashPw(lib, password, s, later) == (s, h)
  {
  }

  /** The first record that answers to `name`. */
  function FirstAnswering(lib: Lib, v: Copy, users: seq<Record>, name: string): (r: Option<nat>)
    ensures r.None? <==> forall j :: 0 <= j < |users| ==> !Answers(lib, v, users[j], name)
    ensures r.Some? ==> r.value < |users| && Answers(lib, v, users[r.value], name)
    ensures r.Some? ==> forall j :: 0 <= j < r.value ==> !Answers(lib, v, users[j], name)
    decreases |users|
  {
    if users == [] then None
    else if Answers(lib, v, users[0], name) then Some(0)
    else match FirstAnswering(lib, v, users[1..], name)
      case None => None
      case Some(j) => Some(j + 1)
  }

  /** The record `add_user` appends. */
  function NewRecord(lib: Lib, uname: string, password: string, role: string, token: string): Record {
    var (s, h) := HashPw(lib, password, [], token);
    Record(Some(uname), None, Some(role), Some(s), Some(h))
  }

  /** `add_user(username, password, role)` (`add_user_local` in crm_lib):
      the outcome and the records to save. */
  function AddUser(lib: Lib, v: Copy, users: seq<Record>, username: string, password: string,
                   role: string, token: string): (r: (Outcome, seq<Record>))
    // the checks, in order: a blank name or an empty password, then the
    // role, then a name some record already answers to
    ensures r.0 == Incomplete <==> Trim(username) == [] || password == []
    ensures r.0 == BadRole <==> Trim(username) != [] && password != [] && !ValidRole(role)
    ensures r.0 == Taken <==>
      && Trim(username) != [] && password != [] && ValidRole(role)
      && exists j :: 0 <= j < |users| && Answers(lib, v, users[j], lib.lower(Trim(username)))
    ensures r.0 in {Incomplete, BadRole, Taken, Created}
    // a rejection writes nothing
    ensures r.0 != Created ==> r.1 == users
    // success appends exactly one record, leaving the others as they were
    ensures r.0 == Created ==>
      && |r.1| == |users| + 1 && r.1[..|users|] == users
      && r.1[|users|] == NewRecord(lib, Trim(username), password, role, token)
  {
    var uname := Trim(username);
    if uname == [] || password == [] then (Incomplete, users)
    else if !ValidRole(role) then (BadRole, users)
    else if FirstAnswering(lib, v, users, lib.lower(uname)).Some? then (Taken, users)
    else
      var out := users + [NewRecord(lib, uname, password, role, token)];
      assert out[..|users|] == users;
      (Created, out)
  }

  /** Adding keeps the names distinct. */
  lemma AddKeepsDistinct(lib: Lib, v: Copy, users: seq<Record>, username: string, password: string,
                         role: string, token: string)
    requires Distinct(lib, v, users)
    ensures Distinct(lib, v, AddUser(lib, v, users, username, password, role, token).1)
  {
    var r := AddUser(lib, v, users, username, password, role, token);
    if r.0 == Created {
      var uname := Trim(username);
      assert NameOf(v, r.1[|users|]) == uname;
      forall i, j | 0 <= i < j < |r.1|
        ensures lib.lower(NameOf(v, r.1[i])) != lib.lower(NameOf(v, r.1[j]))
      {
        assert r.1[i] == users[i];
        if j < |users| {
          assert r.1[j] == users[j];
        } else {
          assert !Answers(lib, v, users[i], lib.lower(uname));
        }
      }
    }
  }

  /** `delete_user(username)` (`delete_user_local` in crm_lib): the outcome
      and the records to save. */
  function DeleteUser(lib: Lib, v: Copy, users: seq<Record>, username: string): (r: (Outcome, seq<Record>))
    ensures r.0 in {BadName, NotFound, Deleted}
    ensures r.0 == BadName <==> lib.lower(Trim(username)) == []
    ensures r.0 == NotFound <==>
      && lib.lower(Trim(username)) != []
      && forall j :: 0 <= j < |users| ==> !Answers(lib, v, users[j], lib.lower(Trim(username)))
    ensures r.0 != Deleted ==> r.1 == users
    // only the first record that answers to the name goes; the others keep
    // their order
    ensures r.0 == Deleted ==> exists i :: (
      && 0 <= i < |users|
      && Answers(lib, v, users[i], lib.lower(Trim(username)))
      && (forall j :: 0 <= j < i ==> !Answers(lib, v, users[j], lib.lower(Trim(username))))
      && r.1 == users[..i] + users[i + 1..])
  {
    var name := lib.lower(Trim(username));
    if name == [] then (BadName, users)
    else match FirstAnswering(lib, v, users, name)
      case None => (NotFound, users)
      case Some(i) => (Deleted, users[..i] + users[i + 1..])
  }

  /** Deleting keeps the names distinct and removes exactly one record. */
  lemma DeleteKeepsDistinct(lib: Lib, v: Copy, users: seq<Record>, username: string)
    requires Distinct(lib, v, users)
    ensures var r := DeleteUser(lib, v, users, username);
      Distinct(lib, v, r.1) && |r.1| == if r.0 == Deleted then |users| - 1 else |users|
  {
    var name := lib.lower(Trim(username));
    if name != [] {
      var f := FirstAnswering(lib, v, users, name);
      if f.Some? {
        RemoveKeepsDistinct(lib, v, users, f.value);
      }
    }
  }

  /** Removing one record keeps the names distinct. */
  lemma RemoveKeepsDistinct(lib: Lib, v: Copy, users: seq<Record>, i: nat)
    requires i < |users| && Distinct(lib, v, users)
    ensures Distinct(lib, v, users[..i] + users[i + 1..])
  {
    var r := users[..i] + users[i + 1..];
    RemoveAt(users, i, r);
    forall a, b | 0 <= a < b < |r|
      ensures lib.lower(NameOf(v, r[a])) != lib.lower(NameOf(v, r[b]))
    {
      var a' := if a < i then a else a + 1;
      var b' := if b < i then b else b + 1;
      assert r[a] == users[a'] && r[b] == users[b'];
    }
  }

  /** The entries of a list with one entry removed. */
  lemma RemoveAt<T>(s: seq<T>, i: nat, r: seq<T>)
    requires i < |s| && r == s[..i] + s[i + 1..]
    ensures |r| == |s| - 1
    ensures forall k :: 0 <= k < |r| ==> r[k] == if k < i then s[k] else s[k + 1]
  {
  }

  /** Deleting the user just added gives back the records as they were. */
  lemma AddThenDelete(lib: Lib, v: Copy, users: seq<Record>, username: string, password: string,
                      role: string, token: string)
    requires LowerKeepsEmpty(lib)
    requires AddUser(lib, v, users, username, password, role, token).0 == Created
    ensures DeleteUser(lib, v, AddUser(lib, v, users, username, password, role, token).1, username) == (Deleted, users)
  {
    var added := AddUser(lib, v, users, username, password, role, token).1;
    var uname := Trim(username);
    var name := lib.lower(uname);
    assert NameOf(v, added[|users|]) == uname;
    assert lib.lower(uname) != [];
    forall j | 0 <= j < |users| ensures !Answers(lib, v, added[j], name) {
      assert added[j] == users[j];
    }
    assert FirstAnswering(lib, v, added, name) == Some(|users|);
    assert added[..|users|] + added[|users| + 1..] == users;
  }

  /** The lookup of `get_user`: by "user" in crm_project, by "user" or
      "email" in crm.py. */
  predicate Finds(lib: Lib, byEmail: bool, u: Record, ident: string) {
    lib.lower(u.user.GetOr([])) == ident || (byEmail && lib.lower(u.email.GetOr([])) == ident)
  }

  /** `get_user(identifier)`: the first record the stripped, lower-cased
      identifier finds. */
  function GetUser(lib: Lib, byEmail: bool, users: seq<Record>, identifier: string): (r: Option<Record>)
    ensures r.None? <==> forall j :: 0 <= j < |users| ==> !Finds(lib, byEmail, users[j], lib.lower(Trim(identifier)))
    ensures r.Some? ==> exists i :: (
      && 0 <= i < |users| && users[i] == r.value
      && Finds(lib, byEmail, r.value, lib.lower(Trim(identifier)))
      && forall j :: 0 <= j < i ==> !Finds(lib, byEmail, users[j], lib.lower(Trim(identifier))))
  {
    GetFrom(lib, byEmail, users, lib.lower(Trim(identifier)))
  }

  /** The loop of `get_user` over the records. */
  function GetFrom(lib: Lib, byEmail: bool, users: seq<Record>, ident: string): (r: Option<Record>)
    ensures r.None? <==> forall j :: 0 <= j < |users| ==> !Finds(lib, byEmail, users[j], ident)
    ensures r.Some? ==> exists i :: (
      && 0 <= i < |users| && users[i] == r.value
      && Finds(lib, byEmail, r.value, ident)
      && forall j :: 0 <= j < i ==> !Finds(lib, byEmail, users[j], ident))
    decreases |users|
  {
    if users == [] then None
    else if Finds(lib, byEmail, users[0], ident) then Some(users[0])
    else
      var r := GetFrom(lib, byEmail, users[1..], ident);
      assert r.Some? ==> exists i :: (
        && 0 <= i < |users| && users[i] == r.value
        && Finds(lib, byEmail, r.value, ident)
        && forall j :: 0 <= j < i ==> !Finds(lib, byEmail, users[j], ident)) by {
        if r.Some? {
          var i :| 0 <= i < |users[1..]| && users[1..][i] == r.value
            && forall j :: 0 <= j < i ==> !Finds(lib, byEmail, users[1..][j], ident);
          assert users[i + 1] == r.value;
          forall j | 0 <= j < i + 1 ensures !Finds(lib, byEmail, users[j], ident) {
            if j > 0 {
              assert users[j] == users[1..][j - 1];
            }
          }
        }
      }
      r
  }

  /** In crm_project a user just added is the one `get_user` finds by the
      same name. */
  lemma AddThenGet(lib: Lib, users: seq<Record>, username: string, password: string, role: string, token: string)
    requires AddUser(lib, CrmProject, users, username, password, role, token).0 == Created
    ensures GetUser(lib, false, AddUser(lib, CrmProject, users, username, password, role, token).1, username)
      == Some(NewRecord(lib, Trim(username), password, role, token))
  {
    var added := AddUser(lib, CrmProject, users, username, password, role, token).1;
    var ident := lib.lower(Trim(username));
    forall j | 0 <= j < |users| ensures !Finds(lib, false, added[j], ident) {
      assert added[j] == users[j];
      assert !Answers(lib, CrmProject, users[j], ident);
    }
    var r := GetUser(lib, false, added, username);
    assert Finds(lib, false, added[|users|], ident);
    if r.Some? {
      var i :| 0 <= i < |added| && added[i] == r.value
        && forall j :: 0 <= j < i ==> !Finds(lib, false, added[j], ident);
      assert i == |users|;
    }
  }
}
