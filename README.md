# Login screen of the Android application template, in Dafny

This project models the login screen (`LoginActivity`) of the CAB302 Android
application template, together with its user record (`User`). The widgets are left out:
the screen is what is left of it once they are gone.

**The screen's state**
- the current user, which is null until a login succeeds;
- the `isRegistering` flag;
- the shared in-memory user store (`StaticUserDAO`).

**The two button handlers**
- *Register* adds a user with an empty name and the typed email and password, then
  raises the flag.
- *Log in* dispatches on the flag:
  - When not registering, it calls the two-argument `logIn`. This walks the store in
    insertion order and stops at the **first** user whose email and password both match.
  - When registering, it calls the three-argument `logIn`. This walks the **whole** store
    and keeps the **last** match. If that leaves a current user, it renames that user when
    a name was typed, and the login succeeds.
- On success, the current user's name is handed on to the main screen.

The store does not check that emails are unique. So two stored users can share an email
and a password. Then the two-argument `logIn` selects the earlier of them, and the
three-argument `logIn` selects the later one. `LoginSpec.FirstAndLastMatch` and
`LoginSpec.ReRegistrationHidden` state this.

**Modules**
- `Users` (users.dfy) is the `User` class.
  - `Record` is the value a user object holds at one moment.
  - `Snapshot` gives the records a sequence of user objects holds.
  - `Distinct` states that no user object appears twice.
- `UserStore` (user_store.dfy) is the store, as a class over a `seq<User>`.
- `LoginSpec` (login_spec.dfy) is the screen as a state machine over values:
  - `Session` holds the records, the position of the current user and the flag;
  - one function per handler;
  - `Run` performs any sequence of clicks;
  - lemmas state what each handler does and how the two scans relate.
- `Login` (login_activity.dfy) is the `LoginActivity` class.
  - It holds a reference to the store, the current user and the flag.
  - It has two ghost fields: the current user's position and the stored records.
  - Each handler is a method whose `ensures` clause says that the screen moves exactly
    as the matching `LoginSpec` function says.

The user objects live on the heap. Renaming the current user therefore changes the
record seen through the store. `Login.LoginActivity.Valid` keeps the ghost records equal
to the store's snapshot, and `Distinct` is what makes the other records stay unchanged
after a rename. The three-argument `logIn` is `Login.LoginActivity.LogInRegistered`. It
calls two methods for its two parts: `KeepLastMatch` for the loop and `RenameCurrentUser`
for the rename.

## Model

| member | source | states |
|---|---|---|
| Users.User.constructor | app/src/main/java/example/data/User.java:18-22 | the new user holds exactly the given name, password and email |
| Users.User.GetName | app/src/main/java/example/data/User.java:29-31 | returns the name the object currently holds |
| Users.User.GetPassword | app/src/main/java/example/data/User.java:38-40 | returns the password the object currently holds |
| Users.User.GetEmail | app/src/main/java/example/data/User.java:47-49 | returns the email the object currently holds |
| Users.User.SetName | app/src/main/java/example/data/User.java:56-58 | only the name changes, in place; password and email are kept |
| Users.DistinctAt | app/src/main/java/example/application/LoginActivity.java:76 | in a store that holds no object twice, two different positions hold different objects; that the store stays so is proved by OnRegisterButtonClick, whose new user is fresh |
| UserStore.StaticUserDAO.AddUser | app/src/main/java/example/application/LoginActivity.java:76 | the user is appended after the existing users, with no uniqueness check |
| UserStore.StaticUserDAO.ListUsers | app/src/main/java/example/application/LoginActivity.java:113 | the stored user objects themselves, in insertion order (the same list both logIn loops walk, also at line 137) |
| UserStore.StaticUserDAO.UpdateUser | app/src/main/java/example/application/LoginActivity.java:122 | the list is unchanged; the method has no modifies clause, so it can change nothing, since the renamed object is already the stored one |
| LoginSpec.FirstMatch | app/src/main/java/example/application/LoginActivity.java:137-143 | the position found is a match with no match before it; there is no position exactly when no record matches |
| LoginSpec.LastMatch | app/src/main/java/example/application/LoginActivity.java:113-117 | the position kept is a match with no match after it; there is no position exactly when no record matches |
| LoginSpec.LastMatchExtend | app/src/main/java/example/application/LoginActivity.java:113-117 | scanning one more user replaces the last match exactly when that user matches |
| LoginSpec.FirstMatchAppend | app/src/main/java/example/application/LoginActivity.java:137-143 | users added after a match do not move the first match |
| LoginSpec.Initial | app/src/main/java/example/application/LoginActivity.java:28-30 | a new screen has no current user, is not registering, and sees the store as it is |
| LoginSpec.Register | app/src/main/java/example/application/LoginActivity.java:72-79 | one record, with an empty name and the typed credentials, is added at the end; the earlier records and the current user are kept; the flag is raised |
| LoginSpec.Rename | app/src/main/java/example/application/LoginActivity.java:119-123 | only the record at the given position can change, only in its name, and not at all for an empty name |
| LoginSpec.LogInFirstSpec | app/src/main/java/example/application/LoginActivity.java:136-144 | succeeds iff some record matches; then the first match is current; the records and flag never change; on failure nothing changes |
| LoginSpec.LogInFirst | app/src/main/java/example/application/LoginActivity.java:136-144 | keeps the screen valid; that the first match becomes current, and that nothing changes on failure, is proved by LogInFirstSpec |
| LoginSpec.LogInLast | app/src/main/java/example/application/LoginActivity.java:111-128 | keeps the screen valid; that the last match (or the previous current user) becomes current and is renamed only for a non-empty name is proved by LogInLastSpec |
| LoginSpec.LogInButton | app/src/main/java/example/application/LoginActivity.java:89-102 | keeps the screen valid; which overload runs, the screen it leaves (unchanged on failure) and which name is handed on is proved by LogInButtonSpec |
| LoginSpec.Step | app/src/main/java/example/application/LoginActivity.java:57-102 | one click on either button keeps the screen valid |
| LoginSpec.Run | app/src/main/java/example/application/LoginActivity.java:57-102 | any sequence of clicks keeps the screen valid; that no credentials change over it is proved by RunKeepsCredentials |
| LoginSpec.LogInLastSpec | app/src/main/java/example/application/LoginActivity.java:111-128 | the last match becomes current, or a previous current user stays when none matches; succeeds iff there is then a current user; only that user's name changes, and only to a non-empty typed name; on failure nothing changes |
| LoginSpec.LogInButtonSpec | app/src/main/java/example/application/LoginActivity.java:89-102 | a name is handed on iff some record matches the typed credentials or, while registering, a current user already exists; when not registering it is the first matching record's name; while registering the last match (or the previous current user) becomes current, and the name handed on is the typed name, or that user's stored name when none was typed |
| LoginSpec.RunKeepsCredentials | app/src/main/java/example/application/LoginActivity.java:57-128 | over any sequence of clicks, no record is removed, no email or password changes, and a raised flag stays raised |
| LoginSpec.FirstAndLastMatch | app/src/main/java/example/application/LoginActivity.java:111-144 | the two scans agree on whether a match exists; the first match is never after the last; they pick the same record iff at most one record matches |
| LoginSpec.RegisterThenLogIn | app/src/main/java/example/application/LoginActivity.java:57-128 | a login after registering with the same credentials succeeds, selects the record just added, gives it the typed name and hands that name on; earlier records are untouched |
| LoginSpec.ReRegistrationHidden | app/src/main/java/example/application/LoginActivity.java:111-144 | registering again with stored credentials renames the new record, while a later login on a fresh screen selects the older record and hands on its name |
| LoginSpec.WrongPasswordFails | app/src/main/java/example/application/LoginActivity.java:136-144 | when no user with that email has that password, the two-argument login fails and leaves the screen unchanged |
| Login.LoginActivity.constructor | app/src/main/java/example/application/LoginActivity.java:28-30 | the screen starts with no current user and not registering, over the given store |
| Login.LoginActivity.OnRegisterButtonClick | app/src/main/java/example/application/LoginActivity.java:57-84 | the screen and store move as Register says; the new stored user is a fresh object; the current user is kept |
| Login.LoginActivity.LogIn | app/src/main/java/example/application/LoginActivity.java:136-144 | the early-return loop moves the screen exactly as the first-match login says |
| Login.LoginActivity.LogInRegistered | app/src/main/java/example/application/LoginActivity.java:111-128 | the whole-list loop followed by the rename moves the screen exactly as the last-match login says |
| Login.LoginActivity.RenameCurrentUser | app/src/main/java/example/application/LoginActivity.java:120-123 | renaming through the current-user alias changes exactly that user's record in the store and nothing else |
| Login.LoginActivity.KeepLastMatch | app/src/main/java/example/application/LoginActivity.java:113-117 | the loop leaves as current the last matching stored user, or the previous current user when none matches, and keeps the screen valid |
| Login.LoginActivity.OnLoginButtonClick | app/src/main/java/example/application/LoginActivity.java:89-102 | the screen and the name handed on are exactly what the login button function gives |
| Login.LoginActivity.LaunchMainView | app/src/main/java/example/application/LoginActivity.java:149-153 | the name handed on is the current user's name, as stored |
| Login.RegisterAndLogIn | app/src/main/java/example/application/LoginActivity.java:57-102 | register then login with a typed name always hands on that name; the current user is the freshly stored object holding the typed name and credentials; the earlier users stay at their positions and hold the same records as before |

## Left out

- Widgets and the activity lifecycle are not modelled. This covers `onCreate`, the text
  fields, enabling and disabling widgets, focus and the soft keyboard, the error toast,
  the `Intent`, `startActivity` and `finish()`. The field contents are parameters of the
  handlers.
- Because `finish()` and disabled buttons are not modelled, `Run` also allows clicks
  that the real screen would no longer receive. Examples are a second register click, or
  any click after a successful login. The properties proved over `Run` hold for those
  sequences too.
- The name field is read only while registering. The model passes it to every login
  click and ignores it when not registering, as the source does.
- `MainViewActivity` is not part of this model. Only the name handed to it is.
- `StaticUserDAO`'s own code is not modelled; the store is modelled from how the
  screen uses it:
  - `addUser` appends;
  - `listUsers` returns the stored objects in insertion order;
  - `updateUser` has no effect, because the object it receives is already the stored one.
- The static list of `StaticUserDAO` is one shared store object handed to each screen.
  `Login.LoginActivity.constructor` requires that no user object appears in it twice. This
  holds for every store built by the register button, since each registration adds a fresh
  object.
- Java string equality and `isEmpty()` are exact sequence equality and an empty sequence.
  Null strings do not arise, because text fields always give a string.
- Users.User.GetName, Users.User.GetPassword and Users.User.GetEmail are functions that
  read one field. Their contracts only tie the result to the object's current record.
