/** The in-memory user store (example.data.StaticUserDAO). In the application the list
    is static, so every screen that creates a DAO sees the same list; here that list is
    one shared object, handed to each screen that uses it. */
module UserStore {
  import opened Users

  class StaticUserDAO {
    /** The users in insertion order; objects are shared with whoever holds them. */
    var users: seq<User>

    /** The list as it is when the process starts: empty. Creating a DAO in the
        application does not empty the static list; a screen is instead handed the
        existing store object. */
    constructor ()
      ensures users == []
    {
      users := [];
    }

    /** Appends unconditionally: no uniqueness check on email. */
    method AddUser(user: User)
      modifies this
      ensures users == old(users) + [user]
    {
      users := users + [user];
    }

    /** The whole list, in insertion order. */
    function ListUsers(): (r: seq<User>)
      reads this
      ensures r == users
    {
      users
    }

    /** Has no effect on the list: the object passed in is already the stored one,
        so any change made to it through an alias is visible without this call. */
    method UpdateUser(user: User)
      ensures users == old(users)
    {
    }
  }
}
