/** The sign-in form of the older interface, over the name-to-password object
    in storage. Names and passwords are used exactly as typed; a name counts
    as registered when it maps to a non-empty password. */
module AuthScreenView {
  import opened Seqs
  import opened Storage

  /** The name is present with a non-empty password (the truthiness test). */
  predicate Registered(users: map<string, string>, name: string)
  {
    name in users && users[name] != []
  }

  /** Login is accepted when the name is registered with exactly this password. */
  predicate LoginAccepted(users: map<string, string>, name: string, password: string)
  {
    Registered(users, name) && users[name] == password
  }

  /** Every stored password is non-empty: the form never stores an empty one. */
  predicate PasswordsNonEmpty(users: map<string, string>)
  {
    forall n :: n in users ==> users[n] != []
  }

  /** Under the form's own invariant, registered means present. */
  lemma RegisteredMeansPresent(users: map<string, string>, name: string)
    requires PasswordsNonEmpty(users)
    ensures Registered(users, name) <==> name in users
  {
  }

  /** What a registration stores, and that it keeps the invariant and every other entry. */
  function Register(users: map<string, string>, name: string, password: string): (r: map<string, string>)
    requires password != []
    ensures name in r && r[name] == password
    ensures forall n :: n != name ==> (n in r <==> n in users) && (n in users ==> r[n] == users[n])
    ensures PasswordsNonEmpty(users) ==> PasswordsNonEmpty(r)
  {
    users[name := password]
  }

  /** A fresh registration is followed by an accepted login with the same
      credentials, and by a refused one with any other password. */
  lemma RegisterThenLogin(users: map<string, string>, name: string, password: string, other: string)
    requires password != [] && other != password
    ensures LoginAccepted(Register(users, name, password), name, password)
    ensures !LoginAccepted(Register(users, name, password), name, other)
  {
  }

  datatype Mode = SignIn | SignUp

  class AuthScreen {
    const store: LocalStorage
    var mode: Mode
    var username: string
    var password: string

    constructor (store: LocalStorage)
      ensures this.store == store && mode == SignUp && username == [] && password == []
    {
      this.store := store;
      mode := SignUp;
      username := [];
      password := [];
    }

    /** Submitting the form. The result is the name handed to `onLogin`, if any. */
    method HandleSubmit() returns (loggedIn: Option<string>)
      modifies store`users
      ensures (username == [] || password == []) ==> loggedIn.None? && store.users == old(store.users)
      ensures username != [] && password != [] && mode == SignIn ==>
                store.users == old(store.users) &&
                (loggedIn == Some(username) <==> LoginAccepted(old(store.users), username, password)) &&
                (loggedIn.None? <==> !LoginAccepted(old(store.users), username, password))
      ensures username != [] && password != [] && mode == SignUp ==>
                (Registered(old(store.users), username) ==>
                   loggedIn.None? && store.users == old(store.users)) &&
                (!Registered(old(store.users), username) ==>
                   loggedIn == Some(username) && store.users == Register(old(store.users), username, password))
    {
      if username == [] || password == [] {
        return None;
      }
      var users := store.users;
      if mode == SignIn {
        if Registered(users, username) && users[username] == password {
          loggedIn := Some(username);
        } else {
          loggedIn := None;
        }
      } else {
        if Registered(users, username) {
          loggedIn := None;
        } else {
          store.users := Register(users, username, password);
          loggedIn := Some(username);
        }
      }
    }
  }
}
