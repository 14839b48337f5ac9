/** The request handlers of src/app.py over the server's two mutable tables:
    the session registry (token to teacher username) and the activity
    catalog. Credentials are loaded once and never change. Each handler is
    one atomic step. */
module SchoolApi {
  import opened Roster
  import opened Catalog

  datatype Option<T> = None | Some(value: T)

  /** The `session_token` cookie as the handlers receive it. */
  datatype Cookie = NoCookie | Token(value: string)

  /** What `GET /auth/status` reports. */
  datatype AuthState = Authenticated(username: string) | Anonymous

  /** A cookie counts only when it is present and non-empty: the handlers
      test it with Python truthiness before looking it up. */
  predicate HasToken(cookie: Cookie) {
    cookie.Token? && cookie.value != ""
  }

  class Server {
    /** Session registry: opaque token to the username that logged in. */
    var sessions: map<string, string>
    /** Credential store: username to password, fixed at start-up. */
    const teachers: map<string, string>
    /** Activity catalog: activity name to record. */
    var activities: map<string, Activity>

    /** Every session belongs to a teacher, no session is keyed by the
        empty token (which would never authenticate), and no roster holds
        an email twice. */
    ghost predicate Valid()
      reads this
    {
      "" !in sessions &&
      (forall token :: token in sessions ==> sessions[token] in teachers) &&
      RostersDistinct(activities)
    }

    /** Start-up: the credentials as loaded, no sessions, the seed catalog. */
    constructor (teachers: map<string, string>)
      ensures Valid()
      ensures this.teachers == teachers && sessions == map[] && activities == Seed()
    {
      this.teachers := teachers;
      sessions := map[];
      activities := Seed();
      SeedRostersDistinct();
    }

    /** `GET /auth/status`: whether the cookie names a live session, and
        whose. */
    function AuthStatus(cookie: Cookie): (r: AuthState)
      reads this
      ensures r.Authenticated? <==> HasToken(cookie) && cookie.value in sessions
      ensures r.Authenticated? ==> r.username == sessions[cookie.value]
      ensures Valid() && r.Authenticated? ==> r.username in teachers
    {
      if HasToken(cookie) && cookie.value in sessions then Authenticated(sessions[cookie.value])
      else Anonymous
    }

    /** `require_auth`: the signed-in username, or None where the source
        raises 401. It admits exactly the callers the status endpoint
        reports as authenticated. */
    function RequireAuth(cookie: Cookie): (r: Option<string>)
      reads this
      ensures r.Some? <==> AuthStatus(cookie).Authenticated?
      ensures r.Some? ==> r.value == AuthStatus(cookie).username
    {
      if !HasToken(cookie) || cookie.value !in sessions then None
      else Some(sessions[cookie.value])
    }

    /** `GET /activities`: the whole catalog as it stands, live rosters
        included. */
    function GetActivities(): (r: map<string, Activity>)
      reads this
      ensures r.Keys == activities.Keys
      ensures forall name :: name in r ==> r[name] == activities[name]
    {
      activities
    }

    /** `POST /login`. `token` stands for the fresh random token the source
        draws; it is new and non-empty. Succeeds exactly when the username
        is a teacher's and the password matches, and then registers the one
        session `token -> username`; otherwise answers Unauthorized and
        changes nothing. */
    method Login(username: string, password: string, token: string) returns (outcome: Outcome)
      requires token != "" && token !in sessions
      modifies this
      ensures outcome == Ok || outcome == Unauthorized
      ensures outcome == Ok <==> username in teachers && teachers[username] == password
      ensures outcome == Ok ==> sessions == old(sessions)[token := username]
      ensures outcome == Ok ==> AuthStatus(Token(token)) == Authenticated(username)
      ensures outcome == Unauthorized ==> sessions == old(sessions)
      ensures activities == old(activities)
      ensures old(Valid()) ==> Valid()
    {
      if username in teachers && teachers[username] == password {
        sessions := sessions[token := username];
        outcome := Ok;
      } else {
        outcome := Unauthorized;
      }
    }

    /** `POST /logout`: always succeeds. Drops the cookie's session if there
        is one and is a no-op otherwise, so a second logout changes nothing;
        afterwards the cookie no longer authenticates. */
    method Logout(cookie: Cookie) returns (outcome: Outcome)
      modifies this
      ensures outcome == Ok
      ensures sessions == if HasToken(cookie) then old(sessions) - {cookie.value} else old(sessions)
      ensures old(AuthStatus(cookie)) == Anonymous ==> sessions == old(sessions)
      ensures AuthStatus(cookie) == Anonymous
      ensures activities == old(activities)
      ensures old(Valid()) ==> Valid()
    {
      if HasToken(cookie) && cookie.value in sessions {
        sessions := sessions - {cookie.value};
      }
      outcome := Ok;
    }

    /** `POST /activities/{name}/signup`: the session is checked before the
        catalog is looked at; without one the answer is Unauthorized and
        nothing changes. With one, the catalog changes as Catalog.Signup
        says. Sessions are never touched. */
    method SignupForActivity(activityName: string, email: string, cookie: Cookie) returns (outcome: Outcome)
      modifies this
      ensures sessions == old(sessions)
      ensures old(RequireAuth(cookie)).None? ==> outcome == Unauthorized && activities == old(activities)
      ensures old(RequireAuth(cookie)).Some? ==>
        Step(outcome, activities) == Signup(old(activities), activityName, email)
      ensures old(Valid()) ==> Valid()
    {
      var user := RequireAuth(cookie);
      if user.None? {
        return Unauthorized;
      }
      if activityName !in activities {
        return NotFound;
      }
      var activity := activities[activityName];
      if email in activity.participants {
        return AlreadyRegistered;
      }
      activities := activities[activityName := activity.(participants := activity.participants + [email])];
      outcome := Ok;
      if old(Valid()) {
        SignupKeepsRostersDistinct(old(activities), activityName, email);
      }
    }

    /** `DELETE /activities/{name}/unregister`: the same guard, then the
        catalog changes as Catalog.Unregister says. */
    method UnregisterFromActivity(activityName: string, email: string, cookie: Cookie) returns (outcome: Outcome)
      modifies this
      ensures sessions == old(sessions)
      ensures old(RequireAuth(cookie)).None? ==> outcome == Unauthorized && activities == old(activities)
      ensures old(RequireAuth(cookie)).Some? ==>
        Step(outcome, activities) == Unregister(old(activities), activityName, email)
      ensures old(Valid()) ==> Valid()
    {
      var user := RequireAuth(cookie);
      if user.None? {
        return Unauthorized;
      }
      if activityName !in activities {
        return NotFound;
      }
      var activity := activities[activityName];
      if email !in activity.participants {
        return NotRegistered;
      }
      activities := activities[activityName := activity.(participants := RemoveFirst(activity.participants, email))];
      outcome := Ok;
      if old(Valid()) {
        UnregisterKeepsRostersDistinct(old(activities), activityName, email);
      }
    }
  }

  /** A session from start-up to logout: signing up for the Chess Club is
      refused without a session; after a teacher logs in the same request
      adds the student as the third participant; repeating it is refused as
      already registered; after logout the token is refused again. */
  method ChessClubScenario(teachers: map<string, string>, username: string, token: string)
    returns (before: Outcome, login: Outcome, first: Outcome, roster: seq<string>,
             again: Outcome, logout: Outcome, afterLogout: Outcome)
    requires username in teachers && token != ""
    ensures before == Unauthorized && login == Ok && first == Ok
    ensures roster == ["michael@mergington.edu", "daniel@mergington.edu", "zoe@mergington.edu"]
    ensures again == AlreadyRegistered && logout == Ok && afterLogout == Unauthorized
  {
    var zoe := "zoe@mergington.edu";
    var server := new Server(teachers);
    SeedChessClub();
    var seeded := ["michael@mergington.edu", "daniel@mergington.edu"];
    assert "Chess Club" in server.activities && server.activities["Chess Club"].participants == seeded;
    assert zoe !in seeded;
    before := server.SignupForActivity("Chess Club", zoe, Token(token));
    login := server.Login(username, teachers[username], token);
    first := server.SignupForActivity("Chess Club", zoe, Token(token));
    roster := server.GetActivities()["Chess Club"].participants;
    again := server.SignupForActivity("Chess Club", zoe, Token(token));
    logout := server.Logout(Token(token));
    afterLogout := server.SignupForActivity("Chess Club", zoe, Token(token));
  }
}
