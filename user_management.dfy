// The administrator's user directory: creation with its duplicate checks,
// profile and password changes, enabling and disabling, deletion that
// spares the last administrator, and search.
module UserManagement {
  import opened Wrappers
  import opened Ids
  import Strings

  datatype Role = RoleUser | RoleAdmin

  /** A user account; the password is stored as the encoder's output. */
  datatype User = User(username: string, email: string, fullName: string, password: string, role: Role, enabled: bool)

  type UserTable = map<UserId, User>

  predicate UniqueUsernames(users: UserTable)
  {
    forall a, b :: a in users && b in users && a != b ==> users[a].username != users[b].username
  }

  predicate UniqueEmails(users: UserTable)
  {
    forall a, b :: a in users && b in users && a != b ==> users[a].email != users[b].email
  }

  predicate UsernameTaken(users: UserTable, username: string)
  {
    exists id :: id in users && users[id].username == username
  }

  predicate EmailTaken(users: UserTable, email: string)
  {
    exists id :: id in users && users[id].email == email
  }

  function Admins(users: UserTable): set<UserId>
  {
    set id | id in users && users[id].role == RoleAdmin
  }

  /** countByRole(ADMIN). */
  function AdminCount(users: UserTable): nat
  {
    |Admins(users)|
  }

  /** The deletion guard keeps an administrator: removing a user the guard lets through leaves one whenever there was one. */
  lemma DeleteGuardKeepsAdmin(users: UserTable, id: UserId)
    requires id in users && (users[id].role == RoleAdmin ==> AdminCount(users) > 1)
    ensures AdminCount(users) >= 1 ==> AdminCount(users - {id}) >= 1
    ensures users[id].role == RoleAdmin ==> AdminCount(users - {id}) == AdminCount(users) - 1
    ensures users[id].role != RoleAdmin ==> AdminCount(users - {id}) == AdminCount(users)
  {
    if users[id].role == RoleAdmin {
      assert Admins(users - {id}) == Admins(users) - {id};
    } else {
      assert Admins(users - {id}) == Admins(users);
    }
  }

  function Toggled(u: User): (r: User)
    ensures r.enabled == !u.enabled && r.(enabled := u.enabled) == u
  {
    u.(enabled := !u.enabled)
  }

  /** StringUtils.hasText: some character that is not white space. */
  predicate HasText(term: Option<string>)
  {
    term.Some? && !Strings.IsBlank(term.value)
  }

  predicate ContainsIgnoreCase(s: string, term: string)
  {
    Strings.Contains(Strings.Lower(s), Strings.Lower(term))
  }

  /**
   * searchUsers: every user for a term without text, else the users whose
   * username, email or full name contains the term, ignoring case.
   */
  function Search(users: UserTable, term: Option<string>): (r: set<UserId>)
    ensures !HasText(term) ==> r == users.Keys
    ensures HasText(term) ==> forall id :: id in r <==>
      id in users && (ContainsIgnoreCase(users[id].username, term.value) || ContainsIgnoreCase(users[id].email, term.value)
                      || ContainsIgnoreCase(users[id].fullName, term.value))
  {
    if !HasText(term) then users.Keys
    else set id | id in users && (ContainsIgnoreCase(users[id].username, term.value) || ContainsIgnoreCase(users[id].email, term.value)
                                  || ContainsIgnoreCase(users[id].fullName, term.value))
  }

  /** A user is found by the whole of their username, whatever its case. */
  lemma SearchFindsByUsername(users: UserTable, id: UserId, term: string)
    requires id in users && !Strings.IsBlank(term) && Strings.EqualsIgnoreCase(users[id].username, term)
    ensures id in Search(users, Some(term))
  {
    Strings.ContainsPrefix(Strings.Lower(users[id].username), Strings.Lower(term));
  }

  class UserDirectory {
    var users: UserTable
    var nextId: nat

    /** Ids are issued in order, and usernames and emails are unique. */
    predicate Valid()
      reads this
    {
      (forall id :: id in users ==> id < nextId) && UniqueUsernames(users) && UniqueEmails(users)
    }

    constructor ()
      ensures Valid() && users == map[] && nextId == 0
    {
      users := map[];
      nextId := 0;
    }

    /** createUser: a taken username is refused first, then a taken email; the new user is enabled. */
    method CreateUser(username: string, email: string, fullName: string, encoded: string, role: Role) returns (r: Result<UserId>)
      requires Valid()
      modifies this
      ensures Valid()
      ensures UsernameTaken(old(users), username) ==> r == Err(AlreadyExists("Username"))
      ensures !UsernameTaken(old(users), username) && EmailTaken(old(users), email) ==> r == Err(AlreadyExists("Email"))
      ensures r.Ok? <==> !UsernameTaken(old(users), username) && !EmailTaken(old(users), email)
      ensures r.Err? ==> users == old(users)
      ensures r.Ok? ==> r.value !in old(users) && users == old(users)[r.value := User(username, email, fullName, encoded, role, true)]
    {
      if UsernameTaken(users, username) {
        return Err(AlreadyExists("Username"));
      }
      if EmailTaken(users, email) {
        return Err(AlreadyExists("Email"));
      }
      var id := nextId;
      users := users[id := User(username, email, fullName, encoded, role, true)];
      nextId := nextId + 1;
      r := Ok(id);
    }

    /** updateUser: an unknown id is refused; a new email must be free, the user's own email may be kept. */
    method UpdateUser(id: UserId, email: string, fullName: string, role: Role) returns (r: Result<UserId>)
      requires Valid()
      modifies this
      ensures Valid()
      ensures id !in old(users) ==> r == Err(NotFound("User"))
      ensures r.Ok? <==> id in old(users) && (old(users)[id].email == email || !EmailTaken(old(users), email))
      ensures r.Err? ==> users == old(users)
      ensures r.Ok? ==> users == old(users)[id := old(users)[id].(email := email, fullName := fullName, role := role)]
      ensures nextId == old(nextId)
    {
      if id !in users {
        return Err(NotFound("User"));
      }
      if users[id].email != email && EmailTaken(users, email) {
        return Err(AlreadyExists("Email"));
      }
      users := users[id := users[id].(email := email, fullName := fullName, role := role)];
      r := Ok(id);
    }

    /** changePassword: the encoded password replaces the old one and nothing else changes. */
    method ChangePassword(id: UserId, encoded: string) returns (r: Result<()>)
      requires Valid()
      modifies this
      ensures Valid()
      ensures r.Ok? <==> id in old(users)
      ensures r.Err? ==> users == old(users)
      ensures r.Ok? ==> users == old(users)[id := old(users)[id].(password := encoded)]
      ensures nextId == old(nextId)
    {
      if id !in users {
        return Err(NotFound("User"));
      }
      users := users[id := users[id].(password := encoded)];
      r := Ok(());
    }

    /** toggleUserEnabled: the enabled flag is flipped. */
    method ToggleUserEnabled(id: UserId) returns (r: Result<()>)
      requires Valid()
      modifies this
      ensures Valid()
      ensures r.Ok? <==> id in old(users)
      ensures r.Err? ==> users == old(users)
      ensures r.Ok? ==> users == old(users)[id := Toggled(old(users)[id])]
      ensures nextId == old(nextId)
    {
      if id !in users {
        return Err(NotFound("User"));
      }
      users := users[id := Toggled(users[id])];
      r := Ok(());
    }

    /** Toggling twice restores the directory. */
    method ToggleTwice(id: UserId)
      requires Valid()
      modifies this
      ensures Valid() && users == old(users) && nextId == old(nextId)
    {
      var first := ToggleUserEnabled(id);
      var second := ToggleUserEnabled(id);
      if id in old(users) {
        assert users == old(users)[id := Toggled(Toggled(old(users)[id]))];
      }
    }

    /** deleteUser: an unknown id is refused, and so is deleting the only administrator. */
    method DeleteUser(id: UserId) returns (r: Result<()>)
      requires Valid()
      modifies this
      ensures Valid()
      ensures id !in old(users) ==> r == Err(NotFound("User"))
      ensures r.Ok? <==> id in old(users) && (old(users)[id].role == RoleAdmin ==> AdminCount(old(users)) > 1)
      ensures r.Err? ==> users == old(users)
      ensures r.Ok? ==> users == old(users) - {id}
      ensures AdminCount(old(users)) >= 1 ==> AdminCount(users) >= 1
    {
      if id !in users {
        return Err(NotFound("User"));
      }
      if users[id].role == RoleAdmin && AdminCount(users) <= 1 {
        return Err(InvalidState("Cannot delete the last admin user"));
      }
      DeleteGuardKeepsAdmin(users, id);
      users := users - {id};
      r := Ok(());
    }
  }
}
