/**
 * The application state behind the three screens: the two tables and the
 * session's `current_user_id`, with the operations the login, check-in and
 * data-view screens perform on them. Screen navigation and status messages
 * are not modelled; each operation instead returns which of the source's
 * outcomes it reached.
 */
module WellnessTracker {

  import opened Wrappers
  import opened Text
  import opened Security
  import opened Tables
  import opened Queries

  /** `register` rejects passwords shorter than this. */
  const MinPasswordLength := 6

  datatype RegisterResult =
    | RegisterFieldsMissing   // "Username and Password required."
    | PasswordTooShort        // "Password must be at least 6 characters."
    | UsernameTaken           // sqlite3.IntegrityError from the UNIQUE constraint
    | Registered(id: int)

  datatype LoginResult =
    | LoginFieldsMissing      // "Username and Password required."
    | InvalidCredentials      // unknown user and wrong password alike
    | LoggedIn(id: int)

  datatype SaveResult =
    | NotLoggedIn             // "Not logged in. Please log in first."
    | GratitudeMissing        // "Please fill in all 3 gratitude items."
    | Saved(id: int)

  /**
   * The decision `login` takes on the `users` table: the row found under the
   * stripped username is accepted when its stored hash verifies. A success
   * always names a row whose name and password match.
   */
  function Authenticate(users: seq<User>, kdf: Kdf, usernameInput: string, password: string): (r: LoginResult)
    ensures r == LoginFieldsMissing <==> Strip(usernameInput) == [] || password == []
    ensures r.LoggedIn? ==>
      exists k :: (0 <= k < |users| && users[k].id == r.id
                   && users[k].username == Strip(usernameInput)
                   && VerifyPassword(kdf, password, users[k].passwordHash, users[k].salt))
  {
    var name := Strip(usernameInput);
    if name == [] || password == [] then LoginFieldsMissing
    else match FindUser(users, name)
      case None => InvalidCredentials
      case Some(u) =>
        if VerifyPassword(kdf, password, u.passwordHash, u.salt) then LoggedIn(u.id) else InvalidCredentials
  }

  /**
   * Under the `UNIQUE` constraint, login succeeds with `id` exactly when a
   * row carries that id, the stripped username and a hash the password
   * verifies against.
   */
  lemma AuthenticateExactly(users: seq<User>, kdf: Kdf, usernameInput: string, password: string, id: int)
    requires UniqueUsernames(users)
    ensures Authenticate(users, kdf, usernameInput, password) == LoggedIn(id) <==>
      && Strip(usernameInput) != [] && password != []
      && exists k :: 0 <= k < |users| && users[k].id == id
           && users[k].username == Strip(usernameInput)
           && VerifyPassword(kdf, password, users[k].passwordHash, users[k].salt)
  {
    var name := Strip(usernameInput);
    if name != [] && password != [] {
      if k :| (0 <= k < |users| && users[k].id == id && users[k].username == name
               && VerifyPassword(kdf, password, users[k].passwordHash, users[k].salt)) {
        FindUserUnique(users, k);
      }
    }
  }

  /**
   * The row a registration appends: stripped name, hash and salt from
   * `hash_password`. Its stored pair verifies with the registered password.
   */
  function NewUser(id: int, name: string, kdf: Kdf, password: string, token: seq<byte>): (u: User)
    requires |token| == SaltBytes
    ensures VerifyPassword(kdf, password, u.passwordHash, u.salt)
    ensures IsHex(u.passwordHash) && IsHex(u.salt) && u.salt == Hex(token)
  {
    var (hash, salt) := HashPassword(kdf, password, token);
    User(id, name, hash, salt)
  }

  /**
   * Logging in with the name and password just registered yields the id the
   * registration was given.
   */
  lemma LoginAfterRegister(users: seq<User>, kdf: Kdf, usernameInput: string, password: string, token: seq<byte>, id: int)
    requires |token| == SaltBytes
    requires Strip(usernameInput) != [] && password != []
    requires !NameTaken(users, Strip(usernameInput))
    ensures Authenticate(users + [NewUser(id, Strip(usernameInput), kdf, password, token)], kdf, usernameInput, password)
      == LoggedIn(id)
  {
    FindUserAppended(users, NewUser(id, Strip(usernameInput), kdf, password, token));
  }

  /**
   * Once a user is registered, a password whose derived key under the stored
   * salt differs from the registered password's is rejected.
   */
  lemma LoginRejectsOtherPassword(users: seq<User>, kdf: Kdf, k: int, password: string, other: string, token: seq<byte>)
    requires UniqueUsernames(users)
    requires |token| == SaltBytes && 0 <= k < |users|
    requires users[k] == NewUser(users[k].id, users[k].username, kdf, password, token)
    requires other != [] && users[k].username != [] && IsStripped(users[k].username)
    requires kdf(other, Hex(token)) != kdf(password, Hex(token))
    ensures Authenticate(users, kdf, users[k].username, other) == InvalidCredentials
  {
    StripKeepsStripped(users[k].username);
    FindUserUnique(users, k);
    VerifyOnlyMatchingKey(kdf, password, other, token);
  }

  /** The application object and the database it works on. */
  class Tracker {
    const kdf: Kdf
    var users: seq<User>
    var checkins: seq<CheckIn>
    var currentUserId: Option<int>

    /** The table constraints, and a session that belongs to a registered user. */
    ghost predicate Valid()
      reads this
    {
      && UsersTable(users)
      && CheckInsTable(checkins, users)
      && (currentUserId.Some? ==> HasUserId(users, currentUserId.value))
    }

    /** A new database (both `CREATE TABLE`s on an empty file) and nobody logged in. */
    constructor (kdf: Kdf)
      ensures Valid()
      ensures this.kdf == kdf && users == [] && checkins == [] && currentUserId == None
    {
      this.kdf := kdf;
      users := [];
      checkins := [];
      currentUserId := None;
    }

    /** `LoginScreen.register`. */
    method Register(usernameInput: string, password: string, token: seq<byte>) returns (result: RegisterResult)
      requires Valid()
      requires |token| == SaltBytes
      modifies this`users
      ensures Valid()
      ensures var name := Strip(usernameInput);
        && (result == RegisterFieldsMissing <==> name == [] || password == [])
        && (result == PasswordTooShort <==> name != [] && password != [] && |password| < MinPasswordLength)
        && (result == UsernameTaken <==>
              name != [] && |password| >= MinPasswordLength && NameTaken(old(users), name))
        && (result.Registered? ==>
              && result.id == NextRowId(UserIds(old(users)))
              && users == old(users) + [NewUser(result.id, name, kdf, password, token)])
      ensures !result.Registered? ==> users == old(users)
      ensures checkins == old(checkins) && currentUserId == old(currentUserId)
    {
      var name := Strip(usernameInput);
      if name == [] || password == [] {
        return RegisterFieldsMissing;
      }
      if |password| < MinPasswordLength {
        return PasswordTooShort;
      }
      var (hash, salt) := HashPassword(kdf, password, token);
      if FindUser(users, name).Some? {
        return UsernameTaken;
      }
      var row := User(NextRowId(UserIds(users)), name, hash, salt);
      InsertUser(row);
      result := Registered(row.id);
    }

    /** `LoginScreen.login`: a failed attempt leaves the session as it was. */
    method Login(usernameInput: string, password: string) returns (result: LoginResult)
      requires Valid()
      modifies this`currentUserId
      ensures Valid()
      ensures result == Authenticate(users, kdf, usernameInput, password)
      ensures currentUserId == if result.LoggedIn? then Some(result.id) else old(currentUserId)
      ensures users == old(users) && checkins == old(checkins)
    {
      result := Authenticate(users, kdf, usernameInput, password);
      if result.LoggedIn? {
        StartSession(result.id);
      }
    }

    /** Setting `current_user_id` to a registered user's id. */
    method StartSession(id: int)
      requires Valid() && HasUserId(users, id)
      modifies this`currentUserId
      ensures Valid()
      ensures currentUserId == Some(id)
      ensures users == old(users) && checkins == old(checkins)
    {
      currentUserId := Some(id);
    }

    /** `CheckInScreen.logout` and `DataViewScreen.logout`. */
    method Logout()
      requires Valid()
      modifies this`currentUserId
      ensures Valid()
      ensures currentUserId == None
      ensures users == old(users) && checkins == old(checkins)
    {
      currentUserId := None;
    }

    /** `CheckInScreen.save_checkin`, with the clock reading and the slider values passed in. */
    method SaveCheckin(now: string, mood: int, stress: int, anxiety: int,
                       gratitude1: string, gratitude2: string, gratitude3: string, thoughts: string)
      returns (result: SaveResult)
      requires Valid()
      modifies this`checkins
      ensures Valid()
      ensures result == NotLoggedIn <==> currentUserId.None?
      ensures result == GratitudeMissing <==>
        currentUserId.Some? && (Strip(gratitude1) == [] || Strip(gratitude2) == [] || Strip(gratitude3) == [])
      ensures result.Saved? ==>
        && result.id == NextRowId(CheckInIds(old(checkins)))
        && checkins == old(checkins) + [CheckIn(result.id, currentUserId.value, now, mood, stress, anxiety,
                                                Strip(gratitude1), Strip(gratitude2), Strip(gratitude3),
                                                Strip(thoughts))]
      ensures !result.Saved? ==> checkins == old(checkins)
      ensures users == old(users) && currentUserId == old(currentUserId)
    {
      if currentUserId.None? {
        return NotLoggedIn;
      }
      var g1, g2, g3 := Strip(gratitude1), Strip(gratitude2), Strip(gratitude3);
      if g1 == [] || g2 == [] || g3 == [] {
        return GratitudeMissing;
      }
      var id := NextRowId(CheckInIds(checkins));
      var row := CheckIn(id, currentUserId.value, now, mood, stress, anxiety, g1, g2, g3, Strip(thoughts));
      assert WellFormedCheckIn(row, users);
      InsertCheckIn(row);
      result := Saved(id);
    }

    /** `INSERT INTO users`: a well-formed row under a fresh name gets the next rowid. */
    method InsertUser(row: User)
      requires Valid()
      requires WellFormedUser(row) && !NameTaken(users, row.username)
      requires row.id == NextRowId(UserIds(users))
      modifies this`users
      ensures Valid()
      ensures users == old(users) + [row]
      ensures checkins == old(checkins) && currentUserId == old(currentUserId)
    {
      AppendUser(users, checkins, row);
      users := users + [row];
    }

    /** `INSERT INTO checkins`: a well-formed row gets the next rowid. */
    method InsertCheckIn(row: CheckIn)
      requires Valid()
      requires WellFormedCheckIn(row, users)
      requires row.id == NextRowId(CheckInIds(checkins))
      modifies this`checkins
      ensures Valid()
      ensures checkins == old(checkins) + [row]
      ensures users == old(users) && currentUserId == old(currentUserId)
    {
      AppendCheckIn(checkins, users, row);
      checkins := checkins + [row];
    }
  }

  /** One line of the data view's list. */
  datatype ListItem = NoCheckInsFound | Entry(summary: Summary)

  /** The data-view screen's list of items. */
  class DataView {
    var items: seq<ListItem>

    constructor ()
      ensures items == []
    {
      items := [];
    }

    /**
     * `DataViewScreen.load_data`: with nobody logged in the list is left as
     * it is; otherwise it is cleared and refilled with one entry per row of
     * the recent-check-ins query, or with the single "No Check-ins Found"
     * item when the query returns nothing.
     */
    method LoadData(app: Tracker)
      modifies this`items
      ensures app.currentUserId.None? ==> items == old(items)
      ensures app.currentUserId.Some? ==>
        var rows := RecentCheckins(app.checkins, app.currentUserId.value);
        && (rows == [] ==> items == [NoCheckInsFound])
        && (rows != [] ==> |items| == |rows| && forall k :: 0 <= k < |rows| ==> items[k] == Entry(Summarize(rows[k])))
    {
      if app.currentUserId.None? {
        return;
      }
      Show(RecentCheckins(app.checkins, app.currentUserId.value));
    }

    /** Clearing the list and refilling it from the rows a query returned. */
    method Show(rows: seq<CheckIn>)
      modifies this`items
      ensures rows == [] ==> items == [NoCheckInsFound]
      ensures rows != [] ==> |items| == |rows| && forall k :: 0 <= k < |rows| ==> items[k] == Entry(Summarize(rows[k]))
    {
      items := [];
      if rows == [] {
        items := [NoCheckInsFound];
        return;
      }
      for i := 0 to |rows|
        invariant |items| == i
        invariant forall k :: 0 <= k < i ==> items[k] == Entry(Summarize(rows[k]))
      {
        items := items + [Entry(Summarize(rows[i]))];
      }
    }
  }
}
