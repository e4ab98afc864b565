/**
 * Short sessions as the screens drive them. Every assertion follows from
 * the operations' contracts.
 */
module Scenario {

  import opened Wrappers
  import opened Text
  import opened Security
  import opened Tables
  import opened WellnessTracker

  /** On a new database the first registration gets id 1; the same name again is refused. */
  method RegisterTwice(kdf: Kdf, token: seq<byte>, name: string, password: string, other: string)
    requires |token| == SaltBytes
    requires name != [] && IsStripped(name)
    requires |password| >= MinPasswordLength && |other| >= MinPasswordLength
  {
    StripKeepsStripped(name);
    var app := new Tracker(kdf);
    var r := app.Register(name, password, token);
    assert r == Registered(1);
    assert app.users == [NewUser(1, name, kdf, password, token)];
    r := app.Register(name, other, token);
    assert r == UsernameTaken;
  }

  /** Right after registering, logging in with the same name and password succeeds. */
  method LoginAfterRegistering(app: Tracker, token: seq<byte>, name: string, password: string)
    requires app.Valid()
    requires |token| == SaltBytes && Strip(name) != [] && password != []
    requires app.users == [NewUser(1, Strip(name), app.kdf, password, token)]
    modifies app
  {
    var l := app.Login(name, password);
    LoginAfterRegister([], app.kdf, name, password, token, 1);
    assert l == LoggedIn(1) && app.currentUserId == Some(1);
  }

  /** While someone is logged in, a check-in with three gratitude items is saved for them. */
  method SaveWhileLoggedIn(app: Tracker, now: string, g1: string, g2: string, g3: string)
    requires app.Valid() && app.currentUserId.Some?
    requires Strip(g1) != [] && Strip(g2) != [] && Strip(g3) != []
    modifies app
  {
    var user := app.currentUserId.value;
    var s := app.SaveCheckin(now, 7, 3, 2, g1, g2, g3, "");
    assert s.Saved?;
    assert app.checkins[|app.checkins| - 1].userId == user;
  }

  /** After logging out, saving writes nothing. */
  method SaveAfterLogout(app: Tracker, now: string, g1: string, g2: string, g3: string)
    requires app.Valid()
    modifies app
  {
    var before := app.checkins;
    app.Logout();
    var s := app.SaveCheckin(now, 5, 5, 5, g1, g2, g3, "");
    assert s == NotLoggedIn && app.checkins == before;
  }
}
