/**
 * The account rules of the tracker's front end, with the widgets taken away:
 * a users table, a `logged_in` flag, and the signup, login and logout actions
 * that step them.
 */
module Accounts {
  import opened Maybes

  /** One row of the users table. */
  datatype User = User(username: string, password: string)

  /** The users table (in file order) and the session's login flag. */
  datatype Session = Session(users: seq<User>, loggedIn: bool)

  /** The message an action reports. */
  datatype Outcome =
    | LoginSucceeded
    | InvalidCredentials
    | UsernameTaken
    | SignedUp
    | LoggedOut
    | NotOnScreen   // the action's button is not shown in the current screen

  /** An action's effect: the next session and what was reported. */
  datatype Step = Step(session: Session, outcome: Outcome)

  /** A button press on one of the two screens. */
  datatype Action =
    | Login(username: string, password: string)
    | Signup(username: string, password: string)
    | Logout

  /**
   * The login flag at the start of a script run: a flag already in the session
   * is kept, and a fresh session starts logged out.
   */
  function InitialFlag(existing: Maybe<bool>): (flag: bool)
    ensures existing.Nothing? ==> !flag
    ensures existing.Just? ==> flag == existing.value
  {
    match existing
    case Nothing => false
    case Just(flag) => flag
  }

  /** Whether some row carries `name` (exact, case-sensitive comparison). */
  function Registered(users: seq<User>, name: string): (b: bool)
    ensures b <==> exists i :: 0 <= i < |users| && users[i].username == name
  {
    if |users| == 0 then false
    else
      assert forall i :: 1 <= i < |users| ==> users[i] == users[1..][i - 1];
      users[0].username == name || Registered(users[1..], name)
  }

  /** Whether some single row carries both `name` and `password`. */
  function Matches(users: seq<User>, name: string, password: string): (b: bool)
    ensures b <==> exists i :: 0 <= i < |users| && users[i] == User(name, password)
  {
    if |users| == 0 then false
    else
      assert forall i :: 1 <= i < |users| ==> users[i] == users[1..][i - 1];
      (users[0].username == name && users[0].password == password) || Matches(users[1..], name, password)
  }

  /** Appends one user row at the end of the table. */
  function SaveUser(users: seq<User>, name: string, password: string): (r: seq<User>)
    ensures |r| == |users| + 1
    ensures r[..|users|] == users
    ensures r[|users|] == User(name, password)
  {
    users + [User(name, password)]
  }

  /**
   * Signup: a name already in the table is refused and nothing changes;
   * otherwise exactly one row is appended and the login flag is untouched.
   */
  function DoSignup(s: Session, name: string, password: string): (r: Step)
    ensures Registered(s.users, name) ==> r == Step(s, UsernameTaken)
    ensures !Registered(s.users, name) ==>
              && r.outcome == SignedUp
              && r.session.loggedIn == s.loggedIn
              && |r.session.users| == |s.users| + 1
              && r.session.users[..|s.users|] == s.users
              && r.session.users[|s.users|] == User(name, password)
  {
    if Registered(s.users, name) then Step(s, UsernameTaken)
    else Step(s.(users := SaveUser(s.users, name, password)), SignedUp)
  }

  /**
   * Login: the flag is raised exactly when some row matches both fields;
   * otherwise it stays as it was and the credentials are reported invalid.
   * The table never changes.
   */
  function DoLogin(s: Session, name: string, password: string): (r: Step)
    ensures r.session.users == s.users
    ensures r.outcome == LoginSucceeded <==> exists i :: 0 <= i < |s.users| && s.users[i] == User(name, password)
    ensures r.outcome != LoginSucceeded ==> r == Step(s, InvalidCredentials)
    ensures r.session.loggedIn <==> s.loggedIn || r.outcome == LoginSucceeded
  {
    if Matches(s.users, name, password) then Step(s.(loggedIn := true), LoginSucceeded)
    else Step(s, InvalidCredentials)
  }

  /** Logout clears the flag and leaves the table alone. */
  function DoLogout(s: Session): (r: Step)
    ensures !r.session.loggedIn
    ensures r.session.users == s.users
  {
    Step(s.(loggedIn := false), LoggedOut)
  }

  /**
   * One button press. Logged out, only the login and signup form is on screen;
   * logged in, only the main app with its logout button is.
   */
  function Handle(s: Session, a: Action): (r: Step)
    ensures !s.loggedIn && a.Login? ==> r == DoLogin(s, a.username, a.password)
    ensures !s.loggedIn && a.Signup? ==> r == DoSignup(s, a.username, a.password)
    ensures s.loggedIn && a.Logout? ==> r == DoLogout(s)
    ensures (s.loggedIn != a.Logout?) ==> r == Step(s, NotOnScreen)
  {
    match a
    case Login(name, password) => if s.loggedIn then Step(s, NotOnScreen) else DoLogin(s, name, password)
    case Signup(name, password) => if s.loggedIn then Step(s, NotOnScreen) else DoSignup(s, name, password)
    case Logout => if s.loggedIn then DoLogout(s) else Step(s, NotOnScreen)
  }

  /** Runs a sequence of button presses from `s`. */
  function Run(s: Session, actions: seq<Action>): Session
    decreases |actions|
  {
    if |actions| == 0 then s else Run(Handle(s, actions[0]).session, actions[1..])
  }

  /** No two rows share a username. */
  predicate UniqueNames(users: seq<User>)
  {
    forall i, j :: 0 <= i < j < |users| ==> users[i].username != users[j].username
  }

  /** Signing up and then logging in with the same credentials succeeds. */
  lemma SignupThenLogin(s: Session, name: string, password: string)
    requires !Registered(s.users, name)
    ensures DoLogin(DoSignup(s, name, password).session, name, password).outcome == LoginSucceeded
  {
    var users' := DoSignup(s, name, password).session.users;
    assert users'[|s.users|] == User(name, password);
  }

  /** Signup never removes or reorders rows, so every login that worked before still works. */
  lemma SignupKeepsLogins(s: Session, name: string, password: string, n: string, p: string)
    requires DoLogin(s, n, p).outcome == LoginSucceeded
    ensures DoLogin(DoSignup(s, name, password).session, n, p).outcome == LoginSucceeded
  {
    var i :| 0 <= i < |s.users| && s.users[i] == User(n, p);
    var users' := DoSignup(s, name, password).session.users;
    assert users'[i] == User(n, p);
  }

  /** Signup keeps usernames unique. */
  lemma SignupKeepsNamesUnique(s: Session, name: string, password: string)
    requires UniqueNames(s.users)
    ensures UniqueNames(DoSignup(s, name, password).session.users)
  {
  }

  /** Every action keeps usernames unique. */
  lemma HandleKeepsNamesUnique(s: Session, a: Action)
    requires UniqueNames(s.users)
    ensures UniqueNames(Handle(s, a).session.users)
  {
    if a.Signup? && !s.loggedIn {
      SignupKeepsNamesUnique(s, a.username, a.password);
    }
  }

  /** Any run of actions from a table with unique usernames ends with unique usernames. */
  lemma {:induction false} RunKeepsNamesUnique(s: Session, actions: seq<Action>)
    requires UniqueNames(s.users)
    ensures UniqueNames(Run(s, actions).users)
    decreases |actions|
  {
    if |actions| > 0 {
      HandleKeepsNamesUnique(s, actions[0]);
      RunKeepsNamesUnique(Handle(s, actions[0]).session, actions[1..]);
    }
  }

  /** Any run of actions only ever appends rows: the original table is a prefix of the final one. */
  lemma {:induction false} RunOnlyAppends(s: Session, actions: seq<Action>)
    ensures |s.users| <= |Run(s, actions).users|
    ensures Run(s, actions).users[..|s.users|] == s.users
    decreases |actions|
  {
    if |actions| > 0 {
      var next := Handle(s, actions[0]).session;
      assert next.users[..|s.users|] == s.users;
      RunOnlyAppends(next, actions[1..]);
      var final := Run(next, actions[1..]).users;
      assert final[..|next.users|][..|s.users|] == final[..|s.users|];
    }
  }

  /** Logging out and back in with valid credentials returns to a logged-in session over the same table. */
  lemma LogoutThenLogin(s: Session, name: string, password: string)
    requires s.loggedIn && Matches(s.users, name, password)
    ensures Run(s, [Logout, Login(name, password)]) == s
  {
    var out := Handle(s, Logout).session;
    assert out == Session(s.users, false);
    assert [Logout, Login(name, password)][1..] == [Login(name, password)];
    assert Run(out, [Login(name, password)]) == Handle(out, Login(name, password)).session;
  }
}
