/** The user handlers (blueprints/users.py): registration with its
    validation chain, the user search, the author/user type rule and the
    follow relation. The caller of a protected route is an input `caller`;
    JWT login, logout and cookies are not modelled. */
module Users {
  import opened Wrappers
  import opened Models
  import opened Validators
  import opened EditDistance
  import opened Search

  function UserName(u: User): string { u.username }

  predicate UsernameIn(users: map<Id, User>, name: string) {
    exists k :: k in users && users[k].username == name
  }

  predicate EmailIn(users: map<Id, User>, email: string) {
    exists k :: k in users && users[k].email == email
  }

  /** `POST /user`. The checks run in this order, and the first that fails
      decides the answer: username and e-mail given, e-mail well formed,
      password well formed, username free, e-mail free. Only when all pass is
      one unverified user added, under a new identifier, storing the hash
      the caller computed from the password. */
  method CreateUser(db: Session, username: string, email: string, password: string, passwordHash: string)
    returns (status: Status)
    requires Valid(db.Snapshot())
    modifies db
    ensures Valid(db.Snapshot())
    ensures username == [] || email == [] ==> status == Status(400, MissingField)
    ensures username != [] && email != [] && !ValidEmail(email) ==> status == Status(400, InvalidEmail)
    ensures username != [] && email != [] && ValidEmail(email) && !ValidPassword(password) ==>
              status == Status(400, InvalidPassword)
    ensures (username != [] && email != [] && ValidEmail(email) && ValidPassword(password) &&
             UsernameIn(old(db.users), username)) ==> status == Status(400, UsernameTaken)
    ensures (username != [] && email != [] && ValidEmail(email) && ValidPassword(password) &&
             !UsernameIn(old(db.users), username) && EmailIn(old(db.users), email)) ==>
              status == Status(400, EmailTaken)
    ensures status.code == 201 <==>
              username != [] && email != [] && ValidEmail(email) && ValidPassword(password) &&
              !UsernameIn(old(db.users), username) && !EmailIn(old(db.users), email)
    ensures status.code != 201 ==> db.Snapshot() == old(db.Snapshot())
    ensures status.code == 201 ==>
              status.cause == Done &&
              exists id :: id !in old(db.users) &&
                db.Snapshot() == old(db.Snapshot()).(users := old(db.users)[id := User(id, email, username, passwordHash, false)])
  {
    if username == [] || email == [] {
      return Status(400, MissingField);
    }
    if !ValidEmail(email) {
      return Status(400, InvalidEmail);
    }
    if !ValidPassword(password) {
      return Status(400, InvalidPassword);
    }
    if UsernameIn(db.users, username) {
      return Status(400, UsernameTaken);
    }
    if EmailIn(db.users, email) {
      return Status(400, EmailTaken);
    }
    var id := NewId(db.users.Keys);
    db.users := db.users[id := User(id, email, username, passwordHash, false)];
    status := Status(201, Done);
  }

  /** Every user row, in the order the database lists them. */
  ghost predicate ListsUsers(rows: seq<User>, users: map<Id, User>) {
    forall u :: u in rows <==> u in users.Values
  }

  /** `GET /search/user/<username>`: usernames compared as written, with
      threshold 0.4. An exact match is the stored user of that name. */
  method SearchUser(db: Session, rows: seq<User>, query: string) returns (r: Outcome<User>)
    requires query != []
    requires ListsUsers(rows, db.users)
    ensures r == Matches(rows, UserName, query, UserPolicy)
    ensures r.Exact? <==> UsernameIn(db.users, query)
    ensures r.Exact? ==> r.row in db.users.Values && r.row.username == query
  {
    r := FindMatches(rows, UserName, query, UserPolicy);
    if UsernameIn(db.users, query) {
      var k :| k in db.users && db.users[k].username == query;
      assert db.users[k] in rows;
    }
  }

  /** `get_user`'s type: "author" exactly when the user wrote a podcast. */
  function UserType(podcasts: map<Id, Podcast>, user: Id): (t: string)
    ensures t == "author" || t == "user"
    ensures t == "author" <==> exists k :: k in podcasts && podcasts[k].author == user
  {
    if exists k :: k in podcasts && podcasts[k].author == user then "author" else "user"
  }

  /** Adding a podcast makes its author an "author" and leaves every other
      user's type as it was. */
  lemma UserTypeAfterAdd(podcasts: map<Id, Podcast>, p: Podcast, user: Id)
    requires p.id !in podcasts
    ensures UserType(podcasts[p.id := p], p.author) == "author"
    ensures user != p.author ==> UserType(podcasts[p.id := p], user) == UserType(podcasts, user)
  {
    var after := podcasts[p.id := p];
    assert after[p.id].author == p.author;
    if user != p.author {
      if exists k :: k in after && after[k].author == user {
        var k :| k in after && after[k].author == user;
        assert k in podcasts && podcasts[k].author == user;
      }
      if exists k :: k in podcasts && podcasts[k].author == user {
        var k :| k in podcasts && podcasts[k].author == user;
        assert k in after && after[k].author == user;
      }
    }
  }

  /** Removing a podcast turns its author back into a "user" exactly when
      it was their only podcast; no other user's type changes. */
  lemma UserTypeAfterRemove(podcasts: map<Id, Podcast>, id: Id, user: Id)
    requires id in podcasts
    ensures podcasts[id].author == user ==>
              (UserType(podcasts - {id}, user) == "user" <==>
               forall k :: k in podcasts && k != id ==> podcasts[k].author != user)
    ensures podcasts[id].author != user ==> UserType(podcasts - {id}, user) == UserType(podcasts, user)
  {
    var after := podcasts - {id};
    if exists k :: k in podcasts && podcasts[k].author == user && k != id {
      var k :| k in podcasts && podcasts[k].author == user && k != id;
      assert k in after && after[k].author == user;
    }
  }

  /** `GET /user/<user_id>`: the username and type of a stored user; an
      unknown id fails on the missing row (status 500). Nothing changes. */
  method GetUser(db: Session, user: Id) returns (status: Status, name: string, kind: string)
    ensures user !in db.users ==> status == Status(500, BrokenReference)
    ensures user in db.users ==>
              status == Status(201, Done) && name == db.users[user].username &&
              kind == UserType(db.podcasts, user)
  {
    if user !in db.users {
      return Status(500, BrokenReference), "", "";
    }
    status, name, kind := Status(201, Done), db.users[user].username, UserType(db.podcasts, user);
  }

  /** `POST /follows`: `caller` starts following `id`. A missing id gives
      400, an unknown user 404, an existing follow 400; otherwise exactly
      the pair (caller, id) is added. */
  method PostFollow(db: Session, caller: Id, id: Option<Id>) returns (status: Status)
    modifies db
    ensures id.None? ==> status == Status(400, MissingField)
    ensures id.Some? && id.value !in old(db.users) ==> status == Status(404, NotFound)
    ensures id.Some? && id.value in old(db.users) && Follow(caller, id.value) in old(db.follows) ==>
              status == Status(400, AlreadyPresent)
    ensures status.code == 201 <==>
              id.Some? && id.value in old(db.users) && Follow(caller, id.value) !in old(db.follows)
    ensures status.code != 201 ==> db.Snapshot() == old(db.Snapshot())
    ensures status.code == 201 ==>
              status.cause == Done &&
              db.Snapshot() == old(db.Snapshot()).(follows := old(db.follows) + {Follow(caller, id.value)})
  {
    if id.None? {
      return Status(400, MissingField);
    }
    if id.value !in db.users {
      return Status(404, NotFound);
    }
    if Follow(caller, id.value) in db.follows {
      return Status(400, AlreadyPresent);
    }
    db.follows := db.follows + {Follow(caller, id.value)};
    status := Status(201, Done);
  }

  /** `DELETE /follows/<id>`: a pair that is not there gives 400; otherwise
      exactly that pair is removed. */
  method DeleteFollow(db: Session, caller: Id, id: Id) returns (status: Status)
    modifies db
    ensures Follow(caller, id) !in old(db.follows) ==>
              status == Status(400, NotPresent) && db.Snapshot() == old(db.Snapshot())
    ensures Follow(caller, id) in old(db.follows) ==>
              status == Status(200, Done) &&
              db.Snapshot() == old(db.Snapshot()).(follows := old(db.follows) - {Follow(caller, id)})
  {
    if Follow(caller, id) !in db.follows {
      return Status(400, NotPresent);
    }
    db.follows := db.follows - {Follow(caller, id)};
    status := Status(200, Done);
  }

  /** Following and unfollowing restores the relation. */
  lemma FollowThenUnfollow(follows: set<Follow>, f: Follow)
    requires f !in follows
    ensures (follows + {f}) - {f} == follows
  {
  }

  // The user search on the rows of the search tests.

  lemma {:induction false} LevCarlSagan(x: string, y: string)
    requires x == "Carl Sagan" && y == "Carlos Sagan"
    ensures Lev(x, y) == 2
  {
    var p, s := x[..4], x[4..];
    LevSelf(s);
    LevInsertFirst(y[5], s, s);
    LevInsertFirst(y[4], s, [y[5]] + s);
    LevCommonPrefix(p, s, [y[4]] + ([y[5]] + s));
    assert p + s == x;
    assert p + ([y[4]] + ([y[5]] + s)) == y;
    LevAtLeastLengthGap(x, y);
  }

  lemma LevCarlosLatre(x: string, y: string)
    requires x == "Carlos Latre" && y == "Carlos Sagan"
    ensures Lev(x, y) == 4
  {
    var p, s, t := x[..7], x[7..], y[7..];
    CarlosPieces(x, y);
    LevCommonPrefix(p, s, t);
    LevAtMostMismatches(s, t);
    var cs := {'L', 't', 'e', 'r'};
    LevAtLeastCountGap(x, y, cs);
    CountInAppend(p, s, cs);
    CountInAppend(p, t, cs);
    LatreCounts();
  }

  lemma CarlosPieces(x: string, y: string)
    requires x == "Carlos Latre" && y == "Carlos Sagan"
    ensures x == x[..7] + x[7..] && y == x[..7] + y[7..]
    ensures x[..7] == "Carlos " && x[7..] == "Latre" && y[7..] == "Sagan"
  {
  }

  lemma LatreCounts()
    ensures Mismatches("Latre", "Sagan") == 4
    ensures CountIn("Carlos ", {'L', 't', 'e', 'r'}) == 1
    ensures CountIn("Latre", {'L', 't', 'e', 'r'}) == 4
    ensures CountIn("Sagan", {'L', 't', 'e', 'r'}) == 0
  {
  }

  lemma LevAndreuBuenafuente(x: string, y: string)
    requires x == "Andreu Buenafuente" && y == "Carlos Sagan"
    ensures Lev(x, y) >= 12
  {
    var cs := {'A', 'd', 'e', 'u', 'B', 'f', 't'};
    LevAtLeastCountGap(x, y, cs);
    CountInPieces(x, 6, 12, cs);
    CountInPieces(y, 6, 6, cs);
    AndreuPieces(x, y);
    AndreuCounts();
    SaganCounts();
  }

  lemma AndreuPieces(x: string, y: string)
    requires x == "Andreu Buenafuente" && y == "Carlos Sagan"
    ensures x[..6] == "Andreu" && x[6..12] == " Buena" && x[12..] == "fuente"
    ensures y[..6] == "Carlos" && y[6..6] == [] && y[6..] == " Sagan"
  {
  }

  lemma AndreuCounts()
    ensures CountIn("Andreu", {'A', 'd', 'e', 'u', 'B', 'f', 't'}) == 4
    ensures CountIn(" Buena", {'A', 'd', 'e', 'u', 'B', 'f', 't'}) == 3
    ensures CountIn("fuente", {'A', 'd', 'e', 'u', 'B', 'f', 't'}) == 5
  {
  }

  lemma SaganCounts()
    ensures CountIn("Carlos", {'A', 'd', 'e', 'u', 'B', 'f', 't'}) == 0
    ensures CountIn(" Sagan", {'A', 'd', 'e', 'u', 'B', 'f', 't'}) == 0
  {
  }

  /** The three users of the search tests, as the database lists them. */
  predicate SearchTestRows(rows: seq<User>) {
    && |rows| == 3
    && rows[0].username == "Carl Sagan"
    && rows[1].username == "Carlos Latre"
    && rows[2].username == "Andreu Buenafuente"
  }

  /** "Carlos Sagan" has no exact match; "Carl Sagan" (distance 2 of 12,
      83.33 %) and "Carlos Latre" (4 of 12, 66.67 %) come back in that
      order, and "Andreu Buenafuente" does not. */
  lemma SearchCarlosSagan(rows: seq<User>, query: string)
    requires SearchTestRows(rows) && query == "Carlos Sagan"
    ensures Matches(rows, UserName, query, UserPolicy) ==
              Partial([Hit(rows[0], Score(2, 12)), Hit(rows[1], Score(4, 12))])
    ensures Percentage(Score(2, 12)) == 250.0 / 3.0 && Percentage(Score(4, 12)) == 200.0 / 3.0
  {
    CarlosSaganScores(rows, query);
    assert FirstNamed(rows, UserName, query) == None;
    CarlosSaganHits(rows, query);
    CarlosSaganPercentages();
  }

  lemma CarlosSaganHits(rows: seq<User>, query: string)
    requires SearchTestRows(rows) && query == "Carlos Sagan"
    ensures FuzzyHits(rows, UserName, query, UserPolicy) ==
              [Hit(rows[0], Score(2, 12)), Hit(rows[1], Score(4, 12))]
  {
    CarlosSaganScores(rows, query);
    var tail := rows[1..];
    assert tail[1..] == rows[2..] && rows[2..][1..] == [];
    assert FuzzyHits(rows[2..], UserName, query, UserPolicy) == [];
    assert FuzzyHits(tail, UserName, query, UserPolicy) == [Hit(rows[1], Score(4, 12))];
  }

  lemma CarlosSaganPercentages()
    ensures Percentage(Score(2, 12)) == 250.0 / 3.0 && Percentage(Score(4, 12)) == 200.0 / 3.0
  {
  }

  lemma CarlosSaganScores(rows: seq<User>, query: string)
    requires SearchTestRows(rows) && query == "Carlos Sagan"
    ensures forall i :: 0 <= i < 3 ==> UserName(rows[i]) != query
    ensures ScoreOf(UserName(rows[0]), query, UserPolicy) == Score(2, 12)
    ensures ScoreOf(UserName(rows[1]), query, UserPolicy) == Score(4, 12)
    ensures !Accepted(UserName(rows[2]), query, UserPolicy)
  {
    LevCarlSagan(rows[0].username, query);
    LevCarlosLatre(rows[1].username, query);
    LevAndreuBuenafuente(rows[2].username, query);
    assert rows[1].username[7] != query[7];
  }

  /** "Pirlo" is too short to be near any of them: "No good matches found". */
  lemma SearchPirlo(rows: seq<User>, query: string)
    requires SearchTestRows(rows) && query == "Pirlo"
    ensures Matches(rows, UserName, query, UserPolicy) == NoGoodMatches
  {
    forall i | 0 <= i < 3
      ensures UserName(rows[i]) != query && !Accepted(UserName(rows[i]), query, UserPolicy)
    {
      LevAtLeastLengthGap(rows[i].username, query);
    }
    NoGoodMatchesIff(rows, UserName, query, UserPolicy);
  }

  /** "Carl Sagan" itself is an exact match: that user alone, status 201. */
  lemma SearchCarlSagan(rows: seq<User>, query: string)
    requires SearchTestRows(rows) && query == "Carl Sagan"
    ensures Matches(rows, UserName, query, UserPolicy) == Exact(rows[0])
    ensures Matches(rows, UserName, query, UserPolicy).Code() == 201
  {
    assert FirstNamed(rows, UserName, query) == Some(rows[0]);
  }
}
