/** The user record of the application (example.data.User): a mutable object of
    which only the name is ever rewritten. */
module Users {

  /** The value a user object holds at one moment. */
  datatype Record = Record(name: string, password: string, email: string)

  class User {
    var name: string
    var password: string
    var email: string

    /** Stores the three fields exactly as given. */
    constructor (name: string, password: string, email: string)
      ensures this.name == name && this.password == password && this.email == email
      ensures Value() == Record(name, password, email)
    {
      this.name := name;
      this.password := password;
      this.email := email;
    }

    /** The record this object currently holds. */
    function Value(): (r: Record)
      reads this
      ensures r.name == name && r.password == password && r.email == email
    {
      Record(name, password, email)
    }

    function GetName(): (r: string)
      reads this
      ensures r == Value().name
    {
      name
    }

    function GetPassword(): (r: string)
      reads this
      ensures r == Value().password
    {
      password
    }

    function GetEmail(): (r: string)
      reads this
      ensures r == Value().email
    {
      email
    }

    /** Overwrites the name in place; every alias of this object sees the new name. */
    method SetName(newName: string)
      modifies this`name
      ensures name == newName
      ensures password == old(password) && email == old(email)
      ensures Value() == old(Value()).(name := newName)
    {
      name := newName;
    }
  }

  /** The records held by a sequence of user objects, position by position. */
  ghost function Snapshot(users: seq<User>): (rs: seq<Record>)
    reads users
    ensures |rs| == |users|
    ensures forall i {:trigger rs[i]} :: 0 <= i < |users| ==> rs[i] == users[i].Value()
  {
    seq(|users|, i requires 0 <= i < |users| reads users => users[i].Value())
  }

  /** Appending a user object appends the record it holds. */
  lemma SnapshotAppend(users: seq<User>, user: User)
    ensures Snapshot(users + [user]) == Snapshot(users) + [user.Value()]
  {
  }

  /** No user object stands at two positions: each element is absent from the
      elements before it. */
  ghost predicate Distinct(users: seq<User>) {
    users == [] || (users[|users| - 1] !in users[..|users| - 1] && Distinct(users[..|users| - 1]))
  }

  /** Distinct users hold different objects at any two positions. */
  lemma {:induction false} DistinctAt(users: seq<User>, i: nat, j: nat)
    requires Distinct(users) && i < j < |users|
    ensures users[i] != users[j]
  {
    var n := |users| - 1;
    if j == n {
      assert users[i] == users[..n][i];
    } else {
      assert users[i] == users[..n][i] && users[j] == users[..n][j];
      DistinctAt(users[..n], i, j);
    }
  }
}
