/**
 * The two tables of `mobile_tracker.db` as sequences of rows in insertion
 * order, the integrity rules the application keeps on them, the rowid SQLite
 * assigns on insert, and the username lookup of the login screen.
 */
module Tables {

  import opened Wrappers
  import opened Text
  import opened Security

  /** A row of `users`. */
  datatype User = User(id: int, username: string, passwordHash: string, salt: string)

  /** A row of `checkins`; `datePosted` is the `%Y-%m-%d %H:%M:%S` text. */
  datatype CheckIn = CheckIn(
    id: int,
    userId: int,
    datePosted: string,
    moodScore: int,
    stressLevel: int,
    anxietyLevel: int,
    gratitude1: string,
    gratitude2: string,
    gratitude3: string,
    thoughtPatterns: string)

  /** The `id` column of `users`. */
  function UserIds(users: seq<User>): seq<int> {
    seq(|users|, k requires 0 <= k < |users| => users[k].id)
  }

  /** The `id` column of `checkins`. */
  function CheckInIds(checkins: seq<CheckIn>): seq<int> {
    seq(|checkins|, k requires 0 <= k < |checkins| => checkins[k].id)
  }

  /**
   * The rowid SQLite gives an `INTEGER PRIMARY KEY` row inserted without an
   * id: one more than the largest id in the table, or 1 in an empty table.
   * Neither table ever loses a row, so this is the whole rule.
   */
  function NextRowId(ids: seq<int>): (r: int)
    ensures r >= 1
    ensures forall k :: 0 <= k < |ids| ==> ids[k] < r
    ensures r == 1 || r - 1 in ids
  {
    if ids == [] then 1
    else
      var rest := NextRowId(ids[..|ids| - 1]);
      var last := ids[|ids| - 1];
      if last + 1 > rest then last + 1 else rest
  }

  ghost predicate DistinctIds(ids: seq<int>) {
    && (forall k :: 0 <= k < |ids| ==> ids[k] >= 1)
    && (forall j, k :: 0 <= j < k < |ids| ==> ids[j] != ids[k])
  }

  /** Appending the next rowid keeps the ids positive and pairwise distinct. */
  lemma AppendNextRowId(ids: seq<int>)
    requires DistinctIds(ids)
    ensures DistinctIds(ids + [NextRowId(ids)])
  {
  }

  /** The `UNIQUE` constraint on `users.username`. */
  ghost predicate UniqueUsernames(users: seq<User>) {
    forall j, k :: 0 <= j < k < |users| ==> users[j].username != users[k].username
  }

  ghost predicate NameTaken(users: seq<User>, name: string) {
    exists k :: 0 <= k < |users| && users[k].username == name
  }

  ghost predicate HasUserId(users: seq<User>, id: int) {
    exists k :: 0 <= k < |users| && users[k].id == id
  }

  /** What `register` writes: a stripped, non-empty name and hex hash and salt. */
  ghost predicate WellFormedUser(u: User) {
    && u.username != []
    && IsStripped(u.username)
    && IsHex(u.passwordHash)
    && IsHex(u.salt)
  }

  /**
   * What `save_checkin` writes: an owner that is a registered user (the
   * declared but unenforced `FOREIGN KEY`), three stripped non-empty
   * gratitude texts and stripped thought patterns.
   */
  ghost predicate WellFormedCheckIn(c: CheckIn, users: seq<User>) {
    && HasUserId(users, c.userId)
    && c.gratitude1 != [] && IsStripped(c.gratitude1)
    && c.gratitude2 != [] && IsStripped(c.gratitude2)
    && c.gratitude3 != [] && IsStripped(c.gratitude3)
    && IsStripped(c.thoughtPatterns)
  }

  ghost predicate UsersTable(users: seq<User>) {
    && DistinctIds(UserIds(users))
    && UniqueUsernames(users)
    && (forall k :: 0 <= k < |users| ==> WellFormedUser(users[k]))
  }

  ghost predicate CheckInsTable(checkins: seq<CheckIn>, users: seq<User>) {
    && DistinctIds(CheckInIds(checkins))
    && (forall k :: 0 <= k < |checkins| ==> WellFormedCheckIn(checkins[k], users))
  }

  /**
   * Inserting a well-formed user with a fresh name under the next rowid keeps
   * both tables' constraints; every id that named a user still does.
   */
  lemma AppendUser(users: seq<User>, checkins: seq<CheckIn>, u: User)
    requires UsersTable(users) && CheckInsTable(checkins, users)
    requires WellFormedUser(u) && !NameTaken(users, u.username)
    requires u.id == NextRowId(UserIds(users))
    ensures UsersTable(users + [u]) && CheckInsTable(checkins, users + [u])
    ensures forall id :: HasUserId(users, id) ==> HasUserId(users + [u], id)
  {
    var after := users + [u];
    assert UserIds(after) == UserIds(users) + [u.id];
    AppendNextRowId(UserIds(users));
    forall id | HasUserId(users, id) ensures HasUserId(after, id) {
      var j :| 0 <= j < |users| && users[j].id == id;
      assert after[j] == users[j];
    }
  }

  /** Inserting a well-formed check-in under the next rowid keeps the table's constraints. */
  lemma AppendCheckIn(checkins: seq<CheckIn>, users: seq<User>, c: CheckIn)
    requires CheckInsTable(checkins, users) && WellFormedCheckIn(c, users)
    requires c.id == NextRowId(CheckInIds(checkins))
    ensures CheckInsTable(checkins + [c], users)
  {
    assert CheckInIds(checkins + [c]) == CheckInIds(checkins) + [c.id];
    AppendNextRowId(CheckInIds(checkins));
  }

  /**
   * `SELECT ... FROM users WHERE username = ?` followed by `fetchone()`:
   * the first row with exactly that username, if any.
   */
  function FindUser(users: seq<User>, name: string): (r: Option<User>)
    ensures r.Some? ==> r.value in users && r.value.username == name
    ensures r.None? <==> !NameTaken(users, name)
  {
    if users == [] then None
    else if users[0].username == name then Some(users[0])
    else
      var r := FindUser(users[1..], name);
      assert NameTaken(users, name) ==> users[0].username == name || NameTaken(users[1..], name) by {
        if NameTaken(users, name) {
          var k :| 0 <= k < |users| && users[k].username == name;
          if k > 0 { assert users[1..][k - 1] == users[k]; }
        }
      }
      r
  }

  /** Under the `UNIQUE` constraint the lookup returns the one row with that name. */
  lemma {:induction false} FindUserUnique(users: seq<User>, k: int)
    requires UniqueUsernames(users)
    requires 0 <= k < |users|
    ensures FindUser(users, users[k].username) == Some(users[k])
  {
    if k > 0 {
      assert users[0].username != users[k].username;
      assert users[1..][k - 1] == users[k];
      FindUserUnique(users[1..], k - 1);
    }
  }

  /** A row appended with a fresh name is what a lookup of that name finds. */
  lemma {:induction false} FindUserAppended(users: seq<User>, u: User)
    requires !NameTaken(users, u.username)
    ensures FindUser(users + [u], u.username) == Some(u)
  {
    if users != [] {
      assert (users + [u])[1..] == users[1..] + [u];
      FindUserAppended(users[1..], u);
    }
  }
}
