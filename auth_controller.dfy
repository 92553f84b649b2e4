/**
 * Backend/src/controllers/authController.ts: registering a user, logging in
 * and logging out. Password hashing and comparison live in the User model,
 * which is not part of this model: a login takes the comparison as a
 * parameter. Token signing and cookies are left out.
 */
module AuthController {
  import opened Wrappers
  import opened Models
  import Mongo
  import opened Http
  import opened Database

  /** Some user already has this email (`User.findOne({email})` finds one). */
  predicate EmailTaken(users: map<Id, User>, email: string) {
    exists q :: q in users && users[q].email == email
  }

  /** Some user already has this username. */
  predicate UsernameTaken(users: map<Id, User>, username: string) {
    exists q :: q in users && users[q].username == username
  }

  /** register: the email check, then the username check, then the insert. */
  function RegisterSpec(db: Db, username: string, email: string, password: string, role: Role): Outcome {
    if EmailTaken(db.users, email) then Outcome(400, "Email already registered", None, db)
    else if UsernameTaken(db.users, username) then Outcome(400, "Username already taken", None, db)
    else Outcome(201, "User created", Some(db.nextId), Mongo.InsertUser(db, User(username, email, password, role)))
  }

  method Register(s: Store, username: string, email: string, password: string, role: Role)
    returns (status: nat, message: string, created: Option<Id>)
    requires s.Valid()
    modifies s
    ensures Outcome(status, message, created, s.Snapshot()) == RegisterSpec(old(s.Snapshot()), username, email, password, role)
    ensures s.Valid()
  {
    RegisterKeepsValid(s.Snapshot(), username, email, password, role);
    if exists q :: q in s.users && s.users[q].email == email {
      return 400, "Email already registered", None;
    }
    if exists q :: q in s.users && s.users[q].username == username {
      return 400, "Username already taken", None;
    }
    var id := s.InsertUser(User(username, email, password, role));
    return 201, "User created", Some(id);
  }

  /**
   * register refuses a taken email with "Email already registered", also
   * when the username is taken too; it refuses a taken username with
   * "Username already taken"; either refusal adds no user. Otherwise it adds
   * exactly one user, under an id no user had, with the given fields.
   */
  lemma RegisterEffect(db: Db, username: string, email: string, password: string, role: Role)
    requires NextIdFresh(db)
    ensures var out := RegisterSpec(db, username, email, password, role);
      && (EmailTaken(db.users, email) ==> out == Outcome(400, "Email already registered", None, db))
      && (!EmailTaken(db.users, email) && UsernameTaken(db.users, username) ==>
        out == Outcome(400, "Username already taken", None, db))
      && (out.status == 201 <==> !EmailTaken(db.users, email) && !UsernameTaken(db.users, username))
      && (out.status == 201 ==>
        && out.created == Some(db.nextId) && db.nextId !in db.users
        && out.db.users == db.users[db.nextId := User(username, email, password, role)]
        && |out.db.users| == |db.users| + 1
        && out.db.products == db.products && out.db.categories == db.categories
        && out.db.inventories == db.inventories)
  {
    if !EmailTaken(db.users, email) && !UsernameTaken(db.users, username) {
      assert db.nextId !in db.users;
    }
  }

  /** register keeps emails and usernames unique, along with the rest of `Valid`. */
  lemma RegisterKeepsValid(db: Db, username: string, email: string, password: string, role: Role)
    requires Valid(db)
    ensures Valid(RegisterSpec(db, username, email, password, role).db)
    ensures EmailsUnique(RegisterSpec(db, username, email, password, role).db.users)
  {
    if !EmailTaken(db.users, email) && !UsernameTaken(db.users, username) {
      Mongo.InsertUserKeepsValid(db, User(username, email, password, role));
    }
    ValidIndexes(RegisterSpec(db, username, email, password, role).db);
  }

  /** What login answers: a refusal, or the user's role and username. */
  datatype LoginResult = Denied(status: nat, message: string) | LoggedIn(role: Role, username: string)

  /**
   * login: the user with this email, if any, whose password `matches`
   * accepts; `matches` stands for the User model's `comparePassword`.
   */
  function Login(users: map<Id, User>, email: string, password: string, matches: (User, string) -> bool): (r: LoginResult)
    requires EmailsUnique(users)
    ensures r.Denied? ==> r == Denied(400, "Invalid credentials")
    ensures r.LoggedIn? <==> exists q :: q in users && users[q].email == email && matches(users[q], password)
    ensures r.LoggedIn? ==>
      exists q :: q in users && users[q].email == email && r == LoggedIn(users[q].role, users[q].username)
  {
    match Mongo.UserWithEmail(users, email)
    case None => Denied(400, "Invalid credentials")
    case Some(q) =>
      if matches(users[q], password) then LoggedIn(users[q].role, users[q].username)
      else Denied(400, "Invalid credentials")
  }

  /**
   * An unknown email and a known email with a wrong password get the same
   * answer, so a response does not tell whether an email is registered.
   */
  lemma LoginSameRefusal(users: map<Id, User>, unknown: string, known: string, password: string,
                         wrong: string, matches: (User, string) -> bool)
    requires EmailsUnique(users)
    requires !EmailTaken(users, unknown)
    requires forall q :: q in users && users[q].email == known ==> !matches(users[q], wrong)
    ensures Login(users, unknown, password, matches) == Login(users, known, wrong, matches)
  {
  }

  /** logout: clears the cookie and always answers 200. */
  function Logout(): (r: Reply)
    ensures r.status == 200 && r.message == "Logged out successfully"
  {
    Reply(200, "Logged out successfully")
  }
}
