/**
 * The authentication context: an in-memory list of accounts (two to start
 * with), `login` by email and password, `signup` of a new user account
 * that also logs it in, `logout`, and the two flags derived from the
 * current user.
 */
module AuthContext {
  import opened Wrappers
  import opened Text

  datatype Role = UserRole | AdminRole

  /** What the context exposes as `currentUser`: an account without its password. */
  datatype User = User(id: string, name: string, email: string, role: Role)

  /** An entry of the account list. */
  datatype Account = Account(id: string, name: string, email: string, password: string, role: Role)

  /** The rest-spread `{ password, ...userWithoutPassword }`. */
  function WithoutPassword(a: Account): (u: User)
    ensures u.id == a.id && u.name == a.name && u.email == a.email && u.role == a.role
  {
    User(a.id, a.name, a.email, a.role)
  }

  const MockUsers: seq<Account> := [
    Account("1", "Admin User", "nationalquranicseminar@example.com", "871459nqs", AdminRole),
    Account("2", "Regular User", "user@example.com", "password123", UserRole)
  ]

  const InvalidCredentials := "Invalid credentials"
  const EmailInUse := "Email already in use"

  /** How the promise a call returns settles. */
  datatype Outcome = Resolved | Rejected(message: string)

  predicate HasCredentials(a: Account, email: string, password: string) {
    a.email == email && a.password == password
  }

  /** `mockUsers.find(u => u.email === email && u.password === password)`: the first such account's index. */
  function FindCredentials(users: seq<Account>, email: string, password: string): (r: Option<nat>)
    ensures r.None? <==> forall k :: 0 <= k < |users| ==> !HasCredentials(users[k], email, password)
    ensures r.Some? ==> r.value < |users| && HasCredentials(users[r.value], email, password)
    ensures r.Some? ==> forall k :: 0 <= k < r.value ==> !HasCredentials(users[k], email, password)
    decreases |users|
  {
    if users == [] then None
    else if HasCredentials(users[0], email, password) then Some(0)
    else
      var r := FindCredentials(users[1..], email, password);
      if r.Some? then Some(r.value + 1) else None
  }

  /** `mockUsers.find(u => u.email === email)`, as a yes/no answer. */
  predicate EmailPresent(users: seq<Account>, email: string) {
    exists k :: 0 <= k < |users| && users[k].email == email
  }

  /** No two accounts share an email. */
  predicate EmailsDistinct(users: seq<Account>) {
    forall i, j :: 0 <= i < j < |users| ==> users[i].email != users[j].email
  }

  /** Account `k` has id `${k + 1}`: true of the starting list and kept by signup, which never removes. */
  predicate IdsNumbered(users: seq<Account>) {
    forall k :: 0 <= k < |users| ==> users[k].id == DecimalString(k + 1)
  }

  /** `login`: how the promise settles and the current user afterwards. */
  function LoginStep(users: seq<Account>, current: Option<User>, email: string, password: string): (r: (Outcome, Option<User>))
    ensures r.0.Resolved? <==> exists k :: 0 <= k < |users| && HasCredentials(users[k], email, password)
    ensures r.0.Resolved? ==>
      (exists k :: 0 <= k < |users| && HasCredentials(users[k], email, password) && r.1 == Some(WithoutPassword(users[k])))
    ensures r.0.Rejected? ==> r.0.message == InvalidCredentials && r.1 == current
  {
    var found := FindCredentials(users, email, password);
    if found.Some? then (Resolved, Some(WithoutPassword(users[found.value])))
    else (Rejected(InvalidCredentials), current)
  }

  /** The account `signup` appends to a list of `count` accounts. */
  function NewAccount(count: nat, name: string, email: string, password: string): Account {
    Account(DecimalString(count + 1), name, email, password, UserRole)
  }

  /** `signup`: how the promise settles, the account list and the current user afterwards. */
  function SignupStep(users: seq<Account>, current: Option<User>, name: string, email: string, password: string)
    : (r: (Outcome, seq<Account>, Option<User>))
    ensures r.0.Rejected? <==> EmailPresent(users, email)
    ensures r.0.Rejected? ==> r.0.message == EmailInUse && r.1 == users && r.2 == current
    ensures r.0.Resolved? ==> |r.1| == |users| + 1 && r.1[..|users|] == users
    ensures r.0.Resolved? ==> var a := r.1[|users|];
      a.id == DecimalString(|users| + 1) && a.name == name && a.email == email
      && a.password == password && a.role == UserRole && r.2 == Some(WithoutPassword(a))
  {
    if EmailPresent(users, email) then (Rejected(EmailInUse), users, current)
    else
      var a := NewAccount(|users|, name, email, password);
      assert (users + [a])[..|users|] == users;
      (Resolved, users + [a], Some(WithoutPassword(a)))
  }

  /** The starting list satisfies both invariants. */
  lemma MockUsersValid()
    ensures EmailsDistinct(MockUsers) && IdsNumbered(MockUsers)
  {
    assert DecimalString(1) == "1";
    assert DecimalString(2) == "2";
  }

  /** Signup keeps the emails pairwise distinct and the ids numbered, whatever it is asked. */
  lemma SignupKeepsInvariant(users: seq<Account>, current: Option<User>, name: string, email: string, password: string)
    requires EmailsDistinct(users) && IdsNumbered(users)
    ensures var r := SignupStep(users, current, name, email, password);
      EmailsDistinct(r.1) && IdsNumbered(r.1)
  {
    var r := SignupStep(users, current, name, email, password);
    if r.0.Resolved? {
      var t := r.1;
      forall i, j | 0 <= i < j < |t| ensures t[i].email != t[j].email {
        if j == |users| {
          assert t[i] == users[i];
        } else {
          assert t[i] == users[i] && t[j] == users[j];
        }
      }
      forall k | 0 <= k < |t| ensures t[k].id == DecimalString(k + 1) {
        if k < |users| {
          assert t[k] == users[k];
        }
      }
    }
  }

  /** Numbered ids are distinct ids. */
  lemma NumberedIdsDistinct(users: seq<Account>, i: nat, j: nat)
    requires IdsNumbered(users) && i < j < |users|
    ensures users[i].id != users[j].id
  {
    DecimalStringInjective(i + 1, j + 1);
  }

  /**
   * After a successful signup, logging in with the same email and
   * password succeeds and yields exactly the user signup logged in,
   * whatever the current user is by then.
   */
  lemma LoginAfterSignup(users: seq<Account>, current: Option<User>, later: Option<User>,
                         name: string, email: string, password: string)
    requires SignupStep(users, current, name, email, password).0.Resolved?
    ensures var s := SignupStep(users, current, name, email, password);
      LoginStep(s.1, later, email, password) == (Resolved, s.2)
  {
    var s := SignupStep(users, current, name, email, password);
    var found := FindCredentials(s.1, email, password);
    assert HasCredentials(s.1[|users|], email, password);
    assert found.Some?;
    assert found.value == |users|;
  }

  /** A rejected login leaves the current user as it was, and a rejected signup leaves everything. */
  lemma RejectionsChangeNothing(users: seq<Account>, current: Option<User>, name: string, email: string, password: string)
    ensures LoginStep(users, current, email, password).0.Rejected? ==>
      LoginStep(users, current, email, password).1 == current
    ensures EmailPresent(users, email) ==>
      SignupStep(users, current, name, email, password) == (Rejected(EmailInUse), users, current)
  {
  }

  /** `isAuthenticated`. */
  predicate Authenticated(current: Option<User>) {
    current.Some?
  }

  /** `isAdmin`: `currentUser?.role === 'admin'`. */
  predicate Admin(current: Option<User>) {
    current.Some? && current.value.role == AdminRole
  }

  /** An admin is always authenticated; who is admin is decided by the role alone. */
  lemma AdminIsAuthenticated(current: Option<User>)
    ensures Admin(current) ==> Authenticated(current)
    ensures Authenticated(current) && current.value.role == AdminRole ==> Admin(current)
  {
  }

  /** Only the seeded admin account can become an admin: signup never creates one. */
  lemma LoginAdminIffSeeded(users: seq<Account>, current: Option<User>, email: string, password: string)
    requires forall k :: 0 <= k < |users| ==> (users[k].role == AdminRole <==> k == 0)
    ensures var r := LoginStep(users, current, email, password);
      r.0.Resolved? ==> (Admin(r.1) <==> HasCredentials(users[0], email, password))
  {
    var found := FindCredentials(users, email, password);
    if found.Some? && HasCredentials(users[0], email, password) {
      assert found.value == 0;
    }
  }

  /** The provider's state: the account list and the current user. */
  class AuthProvider {
    var users: seq<Account>
    var currentUser: Option<User>

    predicate Valid()
      reads this
    {
      EmailsDistinct(users) && IdsNumbered(users)
    }

    /** Mounting with nothing stored: no current user. */
    constructor ()
      ensures users == MockUsers && currentUser.None?
      ensures Valid()
    {
      users := MockUsers;
      currentUser := None;
      MockUsersValid();
    }

    method Login(email: string, password: string) returns (outcome: Outcome)
      modifies this`currentUser
      ensures (outcome, currentUser) == LoginStep(users, old(currentUser), email, password)
    {
      var found := FindCredentials(users, email, password);
      if found.Some? {
        currentUser := Some(WithoutPassword(users[found.value]));
        outcome := Resolved;
      } else {
        outcome := Rejected(InvalidCredentials);
      }
    }

    method Signup(name: string, email: string, password: string) returns (outcome: Outcome)
      requires Valid()
      modifies this`users, this`currentUser
      ensures (outcome, users, currentUser) == SignupStep(old(users), old(currentUser), name, email, password)
      ensures Valid()
    {
      SignupKeepsInvariant(users, currentUser, name, email, password);
      if EmailPresent(users, email) {
        outcome := Rejected(EmailInUse);
      } else {
        var a := NewAccount(|users|, name, email, password);
        users := users + [a];
        currentUser := Some(WithoutPassword(a));
        outcome := Resolved;
      }
    }

    method Logout()
      modifies this`currentUser
      ensures currentUser.None?
    {
      currentUser := None;
    }

    function IsAuthenticated(): (b: bool)
      reads this
      ensures b <==> currentUser.Some?
    {
      Authenticated(currentUser)
    }

    function IsAdmin(): (b: bool)
      reads this
      ensures b <==> currentUser.Some? && currentUser.value.role == AdminRole
    {
      Admin(currentUser)
    }
  }
}
