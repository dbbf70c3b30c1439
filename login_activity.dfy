/** The login screen (example.application.LoginActivity) without its widgets: the text
    fields' contents are parameters, and the screen's state is the current user, the
    registering flag and the shared store. */
module Login {
  import opened Users
  import opened UserStore
  import opened LoginSpec

  class LoginActivity {
    const store: StaticUserDAO
    var currentUser: User?
    var isRegistering: bool
    /** Position of currentUser in the store; None while currentUser is null. */
    ghost var current: Option<nat>
    /** The records the stored user objects hold. */
    ghost var records: seq<Record>

    /** The store holds each user object once, and currentUser is a stored user. */
    ghost predicate Valid()
      reads this, store, store.users
    {
      Mirrored() && Tracked()
    }

    /** The ghost records are what the stored user objects hold, and no object is
        stored twice. */
    ghost predicate Mirrored()
      reads this`records, store, store.users
    {
      records == Snapshot(store.users) && Distinct(store.users)
    }

    /** current is the position of currentUser in the store, None while it is null. */
    ghost predicate Tracked()
      reads this`currentUser, this`current, store
    {
      (current.None? <==> currentUser == null) &&
      (current.Some? ==> current.value < |store.users| && store.users[current.value] == currentUser)
    }

    /** The screen's state as a value. */
    ghost function Abstract(): (s: Session)
      reads this
    {
      Session(records, current, isRegistering)
    }

    constructor (store: StaticUserDAO)
      requires Distinct(store.users)
      ensures Valid() && this.store == store
      ensures Abstract() == Initial(Snapshot(store.users))
    {
      records := Snapshot(store.users);
      this.store := store;
      currentUser := null;
      isRegistering := false;
      current := None;
    }

    /** onRegisterButtonClick: stores a new user with an empty name and the typed
        credentials, and starts registering. */
    method OnRegisterButtonClick(email: string, password: string)
      requires Valid()
      modifies this`isRegistering, this`records, store
      ensures Valid()
      ensures Abstract() == Register(old(Abstract()), email, password)
      ensures |store.users| == |old(store.users)| + 1 && store.users[..|old(store.users)|] == old(store.users)
      ensures fresh(store.users[|old(store.users)|])
      ensures currentUser == old(currentUser) && isRegistering
    {
      ghost var before := store.users;
      var user := new User("", password, email);
      store.AddUser(user);
      isRegistering := true;
      SnapshotAppend(before, user);
      records := records + [user.Value()];
      assert store.users[..|before|] == before;
    }

    /** logIn(email, password): stops at the first matching user. */
    method LogIn(email: string, password: string) returns (success: bool)
      requires Valid()
      modifies this`currentUser, this`current
      ensures Valid()
      ensures (Abstract(), success) == LogInFirst(old(Abstract()), email, password)
    {
      var users := store.ListUsers();
      for i := 0 to |users|
        invariant forall j :: 0 <= j < i ==> !Matches(records[j], email, password)
        invariant currentUser == old(currentUser) && current == old(current)
      {
        var user := users[i];
        if user.GetEmail() == email && user.GetPassword() == password {
          currentUser := user;
          current := Some(i);
          assert IsFirstMatch(records, i, email, password);
          assert FirstMatch(records, email, password) == Some(i);
          return true;
        }
      }
      assert !HasMatch(records, email, password);
      return false;
    }

    /** logIn(email, password, name): scans the whole store keeping the last match, then
        renames the current user when a name was entered. */
    method LogInRegistered(email: string, password: string, name: string) returns (success: bool)
      requires Valid()
      modifies this`currentUser, this`current, this`records, store.users
      ensures Valid()
      ensures (Abstract(), success) == LogInLast(old(Abstract()), email, password, name)
    {
      ghost var s0 := Abstract();
      KeepLastMatch(email, password);
      if currentUser != null {
        if |name| != 0 {
          RenameCurrentUser(name);
        }
        assert records == Rename(s0.records, current.value, name);
        return true;
      }
      return false;
    }

    /** The loop of logIn(email, password, name): every matching user overwrites the
        current user, so the last match wins; with no match the current user stays. */
    method KeepLastMatch(email: string, password: string)
      requires Valid()
      modifies this`currentUser, this`current
      ensures Valid()
      ensures var last := LastMatch(records, email, password);
        current == if last.Some? then last else old(current)
    {
      var users := store.ListUsers();
      for i := 0 to |users|
        invariant current.None? <==> currentUser == null
        invariant current.Some? ==> current.value < |users| && users[current.value] == currentUser
        invariant current == if LastMatch(records[..i], email, password).Some? then LastMatch(records[..i], email, password) else old(current)
      {
        var user := users[i];
        LastMatchExtend(records, i, email, password);
        if user.GetEmail() == email && user.GetPassword() == password {
          currentUser := user;
          current := Some(i);
        }
      }
      assert records[..|users|] == records;
    }

    /** The renaming step of logIn(email, password, name): the current user's name is
        overwritten in place, and the store sees the change through its alias, so the
        call to updateUser that follows changes nothing further. */
    method RenameCurrentUser(name: string)
      requires Valid() && currentUser != null
      modifies this`records, store.users
      ensures Valid()
      ensures records == old(records)[current.value := old(records)[current.value].(name := name)]
      ensures currentUser.name == name
    {
      ghost var k := current.value;
      ghost var users := store.users;
      currentUser.SetName(name);
      store.UpdateUser(currentUser);
      records := records[k := records[k].(name := name)];
      assert Snapshot(store.users) == records by {
        forall i | 0 <= i < |users| ensures users[i].Value() == records[i] {
          if i < k {
            DistinctAt(users, i, k);
          } else if k < i {
            DistinctAt(users, k, i);
          }
        }
      }
    }

    /** onLoginButtonClick: the registering flag chooses the overload; on success the
        current user's name is what launchMainView hands on, on failure nothing is. */
    method OnLoginButtonClick(email: string, password: string, name: string) returns (handoff: Option<string>)
      requires Valid()
      modifies this, store.users
      ensures Valid()
      ensures (Abstract(), handoff) == LogInButton(old(Abstract()), email, password, name)
    {
      var success;
      if isRegistering {
        success := LogInRegistered(email, password, name);
      } else {
        success := LogIn(email, password);
      }
      if success {
        var extra := LaunchMainView();
        handoff := Some(extra);
      } else {
        handoff := None;
      }
    }

    /** launchMainView: the extra passed to the next screen is the current user's name. */
    method LaunchMainView() returns (extra: string)
      requires Valid() && currentUser != null
      ensures extra == currentUser.name && extra == records[current.value].name
    {
      extra := currentUser.GetName();
    }
  }

  /** A client: register with (email, password), type a name, press login. The fields
      are disabled after the register click, so the login sees the same credentials. */
  method RegisterAndLogIn(screen: LoginActivity, email: string, password: string, name: string)
    returns (handoff: Option<string>)
    requires screen.Valid()
    modifies screen, screen.store, screen.store.users
    ensures screen.Valid()
    ensures handoff == Some(name)
    ensures |screen.store.users| == |old(screen.store.users)| + 1
    ensures screen.currentUser != null && fresh(screen.currentUser)
    ensures screen.currentUser.Value() == Record(name, password, email)
    ensures screen.store.users[..|old(screen.store.users)|] == old(screen.store.users)
    ensures |screen.records| == |old(screen.records)| + 1
    ensures screen.records[..|old(screen.records)|] == old(screen.records)
    ensures forall i :: 0 <= i < |old(screen.store.users)| ==>
      screen.store.users[i].Value() == old(screen.store.users[i].Value())
  {
    ghost var s := screen.Abstract();
    screen.OnRegisterButtonClick(email, password);
    handoff := screen.OnLoginButtonClick(email, password, name);
    RegisterThenLogIn(s, email, password, name);
    assert screen.current == Some(|s.records|);
    forall i | 0 <= i < |s.records|
      ensures screen.store.users[i].Value() == old(screen.store.users[i].Value())
    {
      assert screen.records[i] == s.records[i];
    }
  }
}
