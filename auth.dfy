/** The authentication handler: registration and login against the users
    table. Only `POST` is served; both names and passwords are trimmed before
    use, and an empty one is refused before the action is looked at. */
module AuthHandler {
  import opened Seqs
  import opened Text
  import opened Rules
  import opened Schema
  import AdminHandler

  datatype AuthRequest = AuthRequest(httpMethod: string, action: string,
                                     username: string, password: string)

  /** The columns returned for an account: everything but the password and the date. */
  datatype Account = Account(id: Id, username: string, isVerified: bool, isBanned: bool)

  datatype AuthResponse =
    | Preflight
    | MethodNotAllowed
    | MissingCredentials
    | NameTaken
    | LoggedIn(account: Account)
    | InvalidCredentials
    | Banned
    | InvalidAction

  function AccountOf(u: User): (a: Account)
    ensures a.id == u.id && a.username == u.username
    ensures a.isVerified == u.isVerified && a.isBanned == u.isBanned
  {
    Account(u.id, u.username, u.isVerified, u.isBanned)
  }

  /** The first account with this name. */
  function FindByName(users: seq<User>, name: string): (r: Option<User>)
    ensures r.Some? ==> r.value in users && r.value.username == name
    ensures r.None? <==> forall u :: u in users ==> u.username != name
  {
    if users == [] then None
    else if users[0].username == name then Some(users[0])
    else FindByName(users[1..], name)
  }

  /** The first account with this name and this password. */
  function FindByCredentials(users: seq<User>, name: string, password: string): (r: Option<User>)
    ensures r.Some? ==> r.value in users && r.value.username == name && r.value.password == password
    ensures r.None? <==> forall u :: u in users ==> !(u.username == name && u.password == password)
  {
    if users == [] then None
    else if users[0].username == name && users[0].password == password then Some(users[0])
    else FindByCredentials(users[1..], name, password)
  }

  /** The row registration inserts: verified exactly when the name is the
      administrator's, never banned. */
  function NewUser(id: Id, name: string, password: string, now: int): (u: User)
    ensures u.id == id && u.username == name && u.password == password && u.createdAt == now
    ensures u.isVerified <==> name == AdminName
    ensures !u.isBanned
  {
    User(id, name, password, name == AdminName, false, now)
  }

  /** The answer to a login with already trimmed, non-empty credentials. */
  function Login(users: seq<User>, name: string, password: string): (r: AuthResponse)
    ensures r.LoggedIn? || r == InvalidCredentials || r == Banned
    ensures r == InvalidCredentials <==>
      forall u :: u in users ==> !(u.username == name && u.password == password)
    ensures r == Banned ==>
      exists u :: u in users && u.username == name && u.password == password && u.isBanned
    ensures r.LoggedIn? ==>
      exists u :: u in users && u.username == name && u.password == password && !u.isBanned &&
                  r.account == AccountOf(u)
  {
    var found := FindByCredentials(users, name, password);
    if found.None? then InvalidCredentials
    else if found.value.isBanned then Banned
    else LoggedIn(AccountOf(found.value))
  }

  /** With unique names, the credentials of a stored user always reach that user. */
  lemma {:induction false} CredentialsFindTheirUser(users: seq<User>, i: nat)
    requires UniqueUsernames(users) && i < |users|
    ensures FindByCredentials(users, users[i].username, users[i].password) == Some(users[i])
  {
    if i > 0 {
      assert users[0].username != users[i].username;
      var tail := users[1..];
      assert UniqueUsernames(tail) by {
        forall a, b | 0 <= a < b < |tail| ensures tail[a].username != tail[b].username {
          assert tail[a] == users[a + 1] && tail[b] == users[b + 1];
        }
      }
      assert tail[i - 1] == users[i];
      CredentialsFindTheirUser(tail, i - 1);
    }
  }

  /** A stored user logging in with their own credentials gets their account
      back, or the banned answer if they are banned. */
  lemma LoginOwnCredentials(users: seq<User>, i: nat)
    requires UniqueUsernames(users) && i < |users|
    ensures Login(users, users[i].username, users[i].password) ==
            (if users[i].isBanned then Banned else LoggedIn(AccountOf(users[i])))
  {
    CredentialsFindTheirUser(users, i);
  }

  /** Registration followed by login with the same credentials returns the new
      account, not banned, verified exactly for the administrator's name. */
  lemma RegisterThenLogin(users: seq<User>, id: Id, name: string, password: string, now: int)
    requires UniqueUsernames(users) && FindByName(users, name).None?
    ensures UniqueUsernames(users + [NewUser(id, name, password, now)])
    ensures var r := Login(users + [NewUser(id, name, password, now)], name, password);
            r.LoggedIn? && r.account.id == id && !r.account.isBanned &&
            (r.account.isVerified <==> name == AdminName)
  {
    var after := users + [NewUser(id, name, password, now)];
    assert UniqueUsernames(after) by {
      forall a, b | 0 <= a < b < |after| ensures after[a].username != after[b].username {
        if b == |users| {
          assert after[a] in users;
        }
      }
    }
    LoginOwnCredentials(after, |users|);
  }

  /** Once an administrator bans a user, that user's own credentials get the
      banned answer; unbanning gives the account back. */
  lemma BanBlocksLogin(users: seq<User>, i: nat)
    requires UniqueUserIds(users) && UniqueUsernames(users) && i < |users|
    ensures var banned := AdminHandler.ApplyAction(users, Some(users[i].id), AdminHandler.Ban);
            Login(banned, users[i].username, users[i].password) == Banned
    ensures var unbanned := AdminHandler.ApplyAction(users, Some(users[i].id), AdminHandler.Unban);
            Login(unbanned, users[i].username, users[i].password).LoggedIn?
  {
    var id := Some(users[i].id);
    AdminHandler.KeepsKeys(users, id, AdminHandler.Ban);
    AdminHandler.KeepsKeys(users, id, AdminHandler.Unban);
    LoginOwnCredentials(AdminHandler.ApplyAction(users, id, AdminHandler.Ban), i);
    LoginOwnCredentials(AdminHandler.ApplyAction(users, id, AdminHandler.Unban), i);
  }

  /** A POST with a non-blank name and password reaches the action. */
  predicate Served(req: AuthRequest)
  {
    req.httpMethod == "POST" && Trim(req.username) != [] && Trim(req.password) != []
  }

  /** Appending a row whose id is not yet in use keeps the ids unique. */
  lemma FreshIdKeepsIdsUnique(users: seq<User>, u: User)
    requires UniqueUserIds(users) && FindUser(users, u.id).None?
    ensures UniqueUserIds(users + [u])
  {
    var after := users + [u];
    forall a, b | 0 <= a < b < |after| ensures after[a].id != after[b].id {
      if b == |users| {
        assert after[a] in users;
      }
    }
  }

  /** The register action on non-blank credentials: a taken name is refused,
      otherwise the one new row is inserted and its account returned. */
  method Register(db: Database, name: string, password: string, id: Id, now: int)
    returns (resp: AuthResponse)
    requires db.Valid()
    requires FindUser(db.users, id).None?
    modifies db`users
    ensures db.Valid()
    ensures FindByName(old(db.users), name).Some? ==> resp == NameTaken && db.users == old(db.users)
    ensures FindByName(old(db.users), name).None? ==>
              resp == LoggedIn(AccountOf(NewUser(id, name, password, now))) &&
              db.users == old(db.users) + [NewUser(id, name, password, now)]
  {
    if FindByName(db.users, name).Some? {
      return NameTaken;
    }
    var u := NewUser(id, name, password, now);
    RegisterThenLogin(db.users, id, name, password, now);
    FreshIdKeepsIdsUnique(db.users, u);
    db.users := db.users + [u];
    resp := LoggedIn(AccountOf(u));
  }

  /** The handler. A registration gets the new row's id from the caller, who
      guarantees it is not yet in use (the table's serial key). */
  method Handle(db: Database, req: AuthRequest, id: Id, now: int) returns (resp: AuthResponse)
    requires db.Valid()
    requires FindUser(db.users, id).None?
    modifies db`users
    ensures db.Valid()
    ensures req.httpMethod == "OPTIONS" ==> resp == Preflight
    ensures req.httpMethod != "OPTIONS" && req.httpMethod != "POST" ==> resp == MethodNotAllowed
    ensures req.httpMethod == "POST" && (Trim(req.username) == [] || Trim(req.password) == []) ==>
              resp == MissingCredentials
    ensures Served(req) && req.action == "register" && FindByName(old(db.users), Trim(req.username)).Some? ==>
              resp == NameTaken
    ensures Served(req) && req.action == "register" && FindByName(old(db.users), Trim(req.username)).None? ==>
              var u := NewUser(id, Trim(req.username), Trim(req.password), now);
              resp == LoggedIn(AccountOf(u)) && db.users == old(db.users) + [u]
    ensures Served(req) && req.action == "login" ==>
              resp == Login(old(db.users), Trim(req.username), Trim(req.password))
    ensures Served(req) && req.action != "register" && req.action != "login" ==> resp == InvalidAction
    ensures !(Served(req) && req.action == "register" && FindByName(old(db.users), Trim(req.username)).None?) ==>
              db.users == old(db.users)
  {
    if req.httpMethod == "OPTIONS" {
      return Preflight;
    }
    if req.httpMethod != "POST" {
      return MethodNotAllowed;
    }
    var name := Trim(req.username);
    var password := Trim(req.password);
    if name == [] || password == [] {
      return MissingCredentials;
    }
    if req.action == "register" {
      resp := Register(db, name, password, id, now);
    } else if req.action == "login" {
      resp := Login(db.users, name, password);
    } else {
      resp := InvalidAction;
    }
  }
}
