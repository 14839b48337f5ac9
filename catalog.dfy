/** The activity catalog of src/app.py: a table from activity name to
    activity record, seeded at start-up, whose only changing part is each
    activity's roster. Signup and unregister are stated here as functions
    from the old catalog to an outcome and the new catalog; the request
    handlers in module SchoolApi perform them in place and are proved
    against these functions. */
module Catalog {
  import opened Roster

  /** One activity record. `maxParticipants` is stored and listed but no
      operation consults it. */
  datatype Activity = Activity(
    description: string,
    schedule: string,
    maxParticipants: int,
    participants: seq<string>)

  /** The outcome of a request handler; every error is an HTTPException in
      the source. */
  datatype Outcome = Ok | Unauthorized | NotFound | AlreadyRegistered | NotRegistered
  {
    /** The HTTP status the handler answers with. */
    function StatusCode(): (code: int)
      ensures code == 200 <==> Ok?
      ensures code == 401 <==> Unauthorized?
      ensures code == 404 <==> NotFound?
      ensures code == 400 <==> AlreadyRegistered? || NotRegistered?
    {
      match this
      case Ok => 200
      case Unauthorized => 401
      case NotFound => 404
      case AlreadyRegistered => 400
      case NotRegistered => 400
    }
  }

  /** What a catalog operation answers, with the catalog it leaves behind. */
  datatype Step = Step(outcome: Outcome, catalog: map<string, Activity>)

  /** The object invariant of the catalog: no roster holds an email twice. */
  ghost predicate RostersDistinct(catalog: map<string, Activity>) {
    forall name :: name in catalog ==> NoDuplicates(catalog[name].participants)
  }

  /** Sign `email` up for the activity `name`: NotFound for an unknown
      activity, AlreadyRegistered when the email is on the roster, otherwise
      the email is appended. The capacity is not checked. An error leaves
      the catalog as it was; success changes only the one roster. */
  function Signup(catalog: map<string, Activity>, name: string, email: string): (r: Step)
    ensures r.outcome == Ok || r.outcome == NotFound || r.outcome == AlreadyRegistered
    ensures r.outcome == NotFound <==> name !in catalog
    ensures r.outcome == AlreadyRegistered <==> name in catalog && email in catalog[name].participants
    ensures r.outcome != Ok ==> r.catalog == catalog
    ensures r.outcome == Ok ==>
      r.catalog.Keys == catalog.Keys &&
      r.catalog[name] == catalog[name].(participants := catalog[name].participants + [email]) &&
      forall other :: other in catalog && other != name ==> r.catalog[other] == catalog[other]
    ensures name in catalog ==> email in r.catalog[name].participants
  {
    if name !in catalog then Step(NotFound, catalog)
    else
      var activity := catalog[name];
      if email in activity.participants then Step(AlreadyRegistered, catalog)
      else Step(Ok, catalog[name := activity.(participants := activity.participants + [email])])
  }

  /** Take `email` off the roster of `name`: NotFound for an unknown
      activity, NotRegistered when the email is not on the roster, otherwise
      its first occurrence is removed and the rest keep their order. */
  function Unregister(catalog: map<string, Activity>, name: string, email: string): (r: Step)
    ensures r.outcome == Ok || r.outcome == NotFound || r.outcome == NotRegistered
    ensures r.outcome == NotFound <==> name !in catalog
    ensures r.outcome == NotRegistered <==> name in catalog && email !in catalog[name].participants
    ensures r.outcome != Ok ==> r.catalog == catalog
    ensures r.outcome == Ok ==>
      var ps := catalog[name].participants;
      var i := IndexOf(ps, email);
      r.catalog.Keys == catalog.Keys &&
      r.catalog[name] == catalog[name].(participants := ps[..i] + ps[i + 1..]) &&
      |r.catalog[name].participants| == |ps| - 1 &&
      forall other :: other in catalog && other != name ==> r.catalog[other] == catalog[other]
  {
    if name !in catalog then Step(NotFound, catalog)
    else
      var activity := catalog[name];
      if email !in activity.participants then Step(NotRegistered, catalog)
      else Step(Ok, catalog[name := activity.(participants := RemoveFirst(activity.participants, email))])
  }

  /** Signup keeps every roster duplicate-free. */
  lemma SignupKeepsRostersDistinct(catalog: map<string, Activity>, name: string, email: string)
    requires RostersDistinct(catalog)
    ensures RostersDistinct(Signup(catalog, name, email).catalog)
  {
    var r := Signup(catalog, name, email);
    if r.outcome == Ok {
      AppendNoDuplicates(catalog[name].participants, email);
    }
  }

  /** Unregister keeps every roster duplicate-free, and on success the email
      is no longer on the roster at all. */
  lemma UnregisterKeepsRostersDistinct(catalog: map<string, Activity>, name: string, email: string)
    requires RostersDistinct(catalog)
    ensures RostersDistinct(Unregister(catalog, name, email).catalog)
    ensures Unregister(catalog, name, email).outcome == Ok ==>
      email !in Unregister(catalog, name, email).catalog[name].participants
  {
    var r := Unregister(catalog, name, email);
    if r.outcome == Ok {
      RemoveFirstNoDuplicates(catalog[name].participants, email);
    }
  }

  /** A successful unregister takes exactly one copy of the email off the
      roster and nothing else. */
  lemma UnregisterRemovesOneCopy(catalog: map<string, Activity>, name: string, email: string)
    requires Unregister(catalog, name, email).outcome == Ok
    ensures multiset(Unregister(catalog, name, email).catalog[name].participants)
         == multiset(catalog[name].participants) - multiset{email}
  {
    RemoveFirstMultiset(catalog[name].participants, email);
  }

  /** The same signup twice: the first succeeds, the second is refused with
      AlreadyRegistered and changes nothing, so the roster has grown by one. */
  lemma SignupTwice(catalog: map<string, Activity>, name: string, email: string)
    requires name in catalog && email !in catalog[name].participants
    ensures Signup(catalog, name, email).outcome == Ok
    ensures Signup(Signup(catalog, name, email).catalog, name, email)
         == Step(AlreadyRegistered, Signup(catalog, name, email).catalog)
    ensures |Signup(Signup(catalog, name, email).catalog, name, email).catalog[name].participants|
         == |catalog[name].participants| + 1
  {
  }

  /** The roster's length is never compared with `maxParticipants`: a new
      email is appended even to a roster that is already at or over it. */
  lemma SignupIgnoresCapacity(catalog: map<string, Activity>, name: string, email: string)
    requires name in catalog && email !in catalog[name].participants
    requires |catalog[name].participants| >= catalog[name].maxParticipants
    ensures Signup(catalog, name, email).outcome == Ok
    ensures |Signup(catalog, name, email).catalog[name].participants| > catalog[name].maxParticipants
  {
  }

  /** Unregistering an email right after signing it up restores the catalog
      exactly. */
  lemma {:induction false} UnregisterUndoesSignup(catalog: map<string, Activity>, name: string, email: string)
    requires name in catalog && email !in catalog[name].participants
    ensures Unregister(Signup(catalog, name, email).catalog, name, email) == Step(Ok, catalog)
  {
    var ps := catalog[name].participants;
    var after := Signup(catalog, name, email).catalog;
    RemoveFirstOfAppend(ps, email);
    var back := Unregister(after, name, email).catalog;
    assert back[name] == catalog[name];
    assert back == catalog;
  }

  /** The catalog the server starts with: nine activities. */
  function Seed(): (r: map<string, Activity>)
    ensures r.Keys == {"Chess Club", "Programming Class", "Gym Class", "Soccer Team",
                       "Basketball Team", "Art Club", "Drama Club", "Math Club", "Debate Team"}
  {
    map[
      "Chess Club" := Activity(
        "Learn strategies and compete in chess tournaments",
        "Fridays, 3:30 PM - 5:00 PM", 12,
        ["michael@mergington.edu", "daniel@mergington.edu"]),
      "Programming Class" := Activity(
        "Learn programming fundamentals and build software projects",
        "Tuesdays and Thursdays, 3:30 PM - 4:30 PM", 20,
        ["emma@mergington.edu", "sophia@mergington.edu"]),
      "Gym Class" := Activity(
        "Physical education and sports activities",
        "Mondays, Wednesdays, Fridays, 2:00 PM - 3:00 PM", 30,
        ["john@mergington.edu", "olivia@mergington.edu"]),
      "Soccer Team" := Activity(
        "Join the school soccer team and compete in matches",
        "Tuesdays and Thursdays, 4:00 PM - 5:30 PM", 22,
        ["liam@mergington.edu", "noah@mergington.edu"]),
      "Basketball Team" := Activity(
        "Practice and play basketball with the school team",
        "Wednesdays and Fridays, 3:30 PM - 5:00 PM", 15,
        ["ava@mergington.edu", "mia@mergington.edu"]),
      "Art Club" := Activity(
        "Explore your creativity through painting and drawing",
        "Thursdays, 3:30 PM - 5:00 PM", 15,
        ["amelia@mergington.edu", "harper@mergington.edu"]),
      "Drama Club" := Activity(
        "Act, direct, and produce plays and performances",
        "Mondays and Wednesdays, 4:00 PM - 5:30 PM", 20,
        ["ella@mergington.edu", "scarlett@mergington.edu"]),
      "Math Club" := Activity(
        "Solve challenging problems and participate in math competitions",
        "Tuesdays, 3:30 PM - 4:30 PM", 10,
        ["james@mergington.edu", "benjamin@mergington.edu"]),
      "Debate Team" := Activity(
        "Develop public speaking and argumentation skills",
        "Fridays, 4:00 PM - 5:30 PM", 12,
        ["charlotte@mergington.edu", "henry@mergington.edu"])
    ]
  }

  /** The seed catalog has each of its activities with two distinct
      students and a capacity above the roster's length, so the invariant
      holds at start-up. */
  lemma SeedRostersDistinct()
    ensures RostersDistinct(Seed())
    ensures forall name :: name in Seed() ==>
      |Seed()[name].participants| == 2 < Seed()[name].maxParticipants
  {
    var seed := Seed();
    forall name | name in seed
      ensures NoDuplicates(seed[name].participants)
      ensures |seed[name].participants| == 2 < seed[name].maxParticipants
    {
      var ps := seed[name].participants;
      assert |ps| == 2 && ps[0] != ps[1];
    }
  }

  /** The Chess Club as seeded. */
  lemma SeedChessClub()
    ensures "Chess Club" in Seed() && Seed()["Chess Club"].maxParticipants == 12
    ensures Seed()["Chess Club"].participants == ["michael@mergington.edu", "daniel@mergington.edu"]
  {
  }
}
