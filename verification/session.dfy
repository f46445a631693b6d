/** `AuthSession` of crm_project/core/auth.py: who is logged in and what
    they may do.

    Streamlit's `st.session_state` is a map from keys to values; its
    "auth_user" entry is kept apart as `auth`, and the values of the other
    keys are of a type `V` the routines never look at. */
module Session {
  import opened Runtime
  import opened Text
  import opened Users

  /** `{"user": …, "role": …}`, the logged-in user. */
  datatype Principal = Principal(user: Option<string>, role: string)

  datatype State<V> = State(auth: Option<Principal>, keys: map<string, V>)

  /** The permissions table (`PERMISSIONS` in crm_project/config/settings.py
      and in crm.py): a role's entry, if it has one. */
  function Permissions(role: string): Option<map<string, bool>> {
    if role == "admin" then Some(map["manage_users" := true, "delete_client" := true])
    else if role == "member" then Some(map["manage_users" := false, "delete_client" := false])
    else None
  }

  /** The role `can` reads: the logged-in user's, or "member". */
  function RoleOf<V>(s: State<V>): string {
    match s.auth
    case None => "member"
    case Some(p) => p.role
  }

  /** `is_admin()`. */
  predicate IsAdmin<V>(s: State<V>): (r: bool)
    // only a logged-in user can be an admin
    ensures r ==> s.auth.Some?
    // the permissions table grants every action it lists to an admin's
    // role and none to any other role
    ensures var m := Permissions(RoleOf(s));
      m.Some? ==> forall a :: a in m.value ==> (m.value[a] <==> r)
  {
    s.auth.Some? && s.auth.value.role == "admin"
  }

  /** `can(action)`: `PERMISSIONS.get(role, {}).get(action, False)`. */
  function Can<V>(s: State<V>, action: string): (r: bool)
    // only an admin may do anything, and an admin may do exactly the two
    // listed actions
    ensures r <==> IsAdmin(s) && (action == "manage_users" || action == "delete_client")
  {
    match Permissions(RoleOf(s))
    case None => false
    case Some(m) => action in m && m[action]
  }

  /** `login(username, password)`: whether it succeeded, and the new state.
      A found record without a "role" raises KeyError. */
  function Login<V>(lib: Lib, users: seq<Record>, s: State<V>, username: string, password: string,
                    token: string): (r: Result<(bool, State<V>)>)
    // a failed login changes nothing
    ensures r.Ok? && !r.value.0 ==> r.value.1 == s
    // a successful one only sets the logged-in user, to the first record
    // the name finds, whose password verifies
    ensures r.Ok? && r.value.0 ==>
      var u := GetUser(lib, false, users, username);
      && u.Some? && VerifyPw(lib, password, u.value.salt.GetOr([]), u.value.hash.GetOr([]), token)
      && u.value.role.Some?
      && r.value.1 == s.(auth := Some(Principal(u.value.user, u.value.role.value)))
    // and it succeeds whenever that record is non-empty, has a role and
    // the password verifies
    ensures
      var u := GetUser(lib, false, users, username);
      u.Some? && u.value != Record(None, None, None, None, None) && u.value.role.Some?
      && VerifyPw(lib, password, u.value.salt.GetOr([]), u.value.hash.GetOr([]), token) ==>
      r == Ok((true, s.(auth := Some(Principal(u.value.user, u.value.role.value)))))
    ensures r.Raise? ==> r.error == KeyError && GetUser(lib, false, users, username).Some?
    // it raises exactly when that record is non-empty, the password
    // verifies and the record has no role
    ensures var u := GetUser(lib, false, users, username);
      r.Raise? <==>
        && u.Some? && u.value != Record(None, None, None, None, None)
        && VerifyPw(lib, password, u.value.salt.GetOr([]), u.value.hash.GetOr([]), token)
        && u.value.role.None?
  {
    match GetUser(lib, false, users, username)
    case None => Ok((false, s))
    case Some(u) =>
      if u != Record(None, None, None, None, None) && VerifyPw(lib, password, u.salt.GetOr([]), u.hash.GetOr([]), token) then
        match u.role
        case None => Raise(KeyError)
        case Some(role) => Ok((true, s.(auth := Some(Principal(u.user, role)))))
      else Ok((false, s))
  }

  /** The keys `logout` removes. */
  predicate Cleared(k: string) {
    StartsWith(k, "f_") || StartsWith(k, "login_")
  }

  /** `logout()`. */
  function Logout<V>(s: State<V>): (r: State<V>)
    ensures r.auth.None?
    // exactly the keys starting with "f_" or "login_" go; the others keep
    // their values
    ensures forall k :: k in r.keys <==> k in s.keys && !Cleared(k)
    ensures forall k :: k in r.keys ==> r.keys[k] == s.keys[k]
  {
    State(None, map k | k in s.keys && !Cleared(k) :: s.keys[k])
  }

  /** After logging out nobody may do anything, and logging out again
      changes nothing. */
  lemma LogoutRevokes<V>(s: State<V>, action: string)
    ensures !Can(Logout(s), action) && !IsAdmin(Logout(s))
    ensures Logout(Logout(s)) == Logout(s)
  {
  }

  /** A user just added in crm_project can log in with the password given,
      and then holds the role given. */
  lemma AddThenLogin<V>(lib: Lib, users: seq<Record>, s: State<V>, username: string, password: string,
                        role: string, token: string, later: string)
    requires token != []
    requires AddUser(lib, CrmProject, users, username, password, role, token).0 == Created
    ensures Login(lib, AddUser(lib, CrmProject, users, username, password, role, token).1, s, username, password, later)
      == Ok((true, s.(auth := Some(Principal(Some(Trim(username)), role)))))
  {
    AddThenGet(lib, users, username, password, role, token);
    HashThenVerify(lib, password, token, later);
  }

  /** An admin who logs in may manage users; a member may not. */
  lemma LoginGrants<V>(lib: Lib, users: seq<Record>, s: State<V>, username: string, password: string,
                       role: string, token: string, later: string)
    requires token != []
    requires AddUser(lib, CrmProject, users, username, password, role, token).0 == Created
    ensures var r := Login(lib, AddUser(lib, CrmProject, users, username, password, role, token).1, s, username, password, later);
      r.Ok? && (Can(r.value.1, "manage_users") <==> role == "admin")
  {
    AddThenLogin(lib, users, s, username, password, role, token, later);
  }
}
