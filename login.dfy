/** login.py's account table: for each role the users registered under it
    with their passwords, the login check and registration. */
module Login {
  import opened Text

  /** role -> (user -> password), the contents of users.json. */
  type Accounts = map<string, map<string, string>>

  /** The table written when users.json does not exist yet. */
  function InitialData(): (d: Accounts)
    ensures d.Keys == {"User", "Driver", "Admin"}
    ensures forall role :: role in d ==> d[role] == map[]
  {
    map["User" := map[], "Driver" := map[], "Admin" := map[]]
  }

  /** `data.get(role, {})`. */
  function UsersOf(data: Accounts, role: string): map<string, string> {
    if role in data then data[role] else map[]
  }

  /** `login_action`'s check on the stripped entries: the user exists under
      the role and the stored password is the one entered. A role missing
      from the table (`data.get(role, {})`) lets nobody in. */
  predicate LoginOk(data: Accounts, role: string, username: string, password: string)
    ensures LoginOk(data, role, username, password) ==> role in data
    ensures LoginOk(data, role, username, password) <==>
      role in data && Strip(username) in data[role] && data[role][Strip(username)] == Strip(password)
  {
    var u, p := Strip(username), Strip(password);
    u in UsersOf(data, role) && UsersOf(data, role)[u] == p
  }

  datatype Outcome = Registered | MissingFields | AlreadyExists

  /** A username a registration can never store: empty, or the entry's
      placeholder. */
  predicate Placeholder(u: string, p: string) {
    u == "" || p == "" || u == "Username" || p == "Password"
  }

  /** `register_action` on the stripped entries: the outcome and the table
      it leaves. */
  function Register(data: Accounts, role: string, username: string, password: string): (r: (Outcome, Accounts))
    ensures r.0 == MissingFields <==> Placeholder(Strip(username), Strip(password))
    ensures r.0 == AlreadyExists <==> !Placeholder(Strip(username), Strip(password)) && Strip(username) in UsersOf(data, role)
    ensures r.0 != Registered ==> r.1 == data
    ensures r.0 == Registered ==> r.1.Keys == data.Keys + {role}
  {
    var u, p := Strip(username), Strip(password);
    if Placeholder(u, p) then (MissingFields, data)
    else if u in UsersOf(data, role) then (AlreadyExists, data)
    else (Registered, data[role := UsersOf(data, role)[u := p]])
  }

  /** A successful registration adds exactly the new user under its role
      and changes no other role and no other user. */
  lemma RegisterAddsOne(data: Accounts, role: string, username: string, password: string)
    requires Register(data, role, username, password).0 == Registered
    ensures var after := Register(data, role, username, password).1;
            && UsersOf(after, role).Keys == UsersOf(data, role).Keys + {Strip(username)}
            && Strip(username) !in UsersOf(data, role)
            && UsersOf(after, role)[Strip(username)] == Strip(password)
            && (forall u :: u in UsersOf(data, role) ==> UsersOf(after, role)[u] == UsersOf(data, role)[u])
            && (forall other :: other != role ==> UsersOf(after, other) == UsersOf(data, other))
  {
  }

  /** After a successful registration the same role and entries log in. */
  lemma RegisterThenLogin(data: Accounts, role: string, username: string, password: string)
    requires Register(data, role, username, password).0 == Registered
    ensures LoginOk(Register(data, role, username, password).1, role, username, password)
  {
    var after := Register(data, role, username, password).1;
    assert UsersOf(after, role) == UsersOf(data, role)[Strip(username) := Strip(password)];
  }

  /** Every login of another role, or of another user, is decided after a
      registration as before it. */
  lemma RegisterKeepsOtherLogins(data: Accounts, role: string, username: string, password: string,
                                 r: string, u: string, p: string)
    requires r != role || Strip(u) != Strip(username)
    ensures LoginOk(Register(data, role, username, password).1, r, u, p) <==> LoginOk(data, r, u, p)
  {
    var after := Register(data, role, username, password).1;
    if Register(data, role, username, password).0 == Registered {
      assert UsersOf(after, role) == UsersOf(data, role)[Strip(username) := Strip(password)];
      assert r != role ==> UsersOf(after, r) == UsersOf(data, r);
    }
  }

  /** Registering the same user twice under one role: the second attempt
      is refused and leaves the table. */
  lemma RegisterTwice(data: Accounts, role: string, username: string, password: string, password2: string)
    requires Register(data, role, username, password).0 == Registered
    requires !Placeholder(Strip(username), Strip(password2))
    ensures var after := Register(data, role, username, password).1;
            Register(after, role, username, password2) == (AlreadyExists, after)
  {
    var after := Register(data, role, username, password).1;
    assert Strip(username) in UsersOf(after, role);
  }

  /** No stored account has an empty or placeholder name or password. */
  ghost predicate NoPlaceholders(data: Accounts) {
    forall role, u :: role in data && u in data[role] ==> !Placeholder(u, data[role][u])
  }

  /** The fresh table has no such account, and registration adds none. */
  lemma PlaceholdersNeverStored(data: Accounts, role: string, username: string, password: string)
    requires NoPlaceholders(data)
    ensures NoPlaceholders(InitialData())
    ensures NoPlaceholders(Register(data, role, username, password).1)
  {
  }

  /** So in such a table the untouched entry fields never log in. */
  lemma PlaceholderLoginFails(data: Accounts, role: string)
    requires NoPlaceholders(data)
    ensures !LoginOk(data, role, "Username", "Password")
  {
    StripTrimmed("Username");
    StripTrimmed("Password");
  }
}
