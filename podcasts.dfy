/** The podcast handlers (blueprints/podcasts.py): creation, edition and
    deletion by the author, the podcast search, the favorites list and the
    populars ranking. The caller of a protected route is an input `caller`;
    the set of allowed categories is an input `categories`. */
module Podcasts {
  import opened Wrappers
  import opened Models
  import opened Text
  import opened EditDistance
  import opened Search
  import opened Notifications
  import Users

  function PodcastName(p: Podcast): string { p.name }

  /** Some stored podcast carries `name`. */
  predicate NameUsed(podcasts: map<Id, Podcast>, name: string) {
    exists k :: k in podcasts && podcasts[k].name == name
  }

  /** `filter_by(id_author=author, name=name).first() is not None`. */
  predicate NameOfAuthor(podcasts: map<Id, Podcast>, author: Id, name: string) {
    exists k :: k in podcasts && podcasts[k].author == author && podcasts[k].name == name
  }

  /** `category != None and category not in CATEGORIES`. */
  predicate CategoryRejected(category: Option<string>, categories: set<string>) {
    category.Some? && category.value !in categories
  }

  /** A form field that Python reads as true: present and not empty. */
  predicate Given(field: Option<string>) {
    field.Some? && field.value != []
  }

  /** `POST /podcasts`. In order: a category outside `categories` gives 401,
      an empty name 400, a name the caller already uses 400. A name another
      author uses passes these checks but breaks the `unique` constraint on
      `name` at commit (500, nothing stored). Otherwise exactly one podcast
      is added under a new identifier, and each follower of the caller gets
      one "new_podcast" notification. */
  method PostPodcast(
    db: Session, categories: set<string>, caller: Id,
    name: string, summary: string, description: string, category: Option<string>)
    returns (status: Status, id: Id)
    requires Valid(db.Snapshot())
    modifies db
    ensures Valid(db.Snapshot())
    ensures CategoryRejected(category, categories) ==> status == Status(401, CategoryNotAllowed)
    ensures !CategoryRejected(category, categories) && name == [] ==> status == Status(400, MissingField)
    ensures (!CategoryRejected(category, categories) && name != [] &&
             NameOfAuthor(old(db.podcasts), caller, name)) ==> status == Status(400, NameTaken)
    ensures (!CategoryRejected(category, categories) && name != [] &&
             !NameOfAuthor(old(db.podcasts), caller, name) && NameUsed(old(db.podcasts), name)) ==>
              status == Status(500, ConstraintViolation)
    ensures status.code == 201 <==>
              !CategoryRejected(category, categories) && name != [] && !NameUsed(old(db.podcasts), name)
    ensures status.code != 201 ==> db.Snapshot() == old(db.Snapshot())
    ensures status.code == 201 ==>
              status.cause == Done && id !in old(db.podcasts) &&
              var p := Podcast(id, name, summary, description, caller, category);
              exists batch ::
                IsFanOut(batch, old(db.follows), caller, NewPodcast, PodcastPayload(p)) &&
                db.Snapshot() == old(db.Snapshot()).(podcasts := old(db.podcasts)[id := p],
                                                     notifications := old(db.notifications) + batch)
    ensures status.code == 201 ==> Users.UserType(db.podcasts, caller) == "author"
  {
    id := 0;
    if CategoryRejected(category, categories) {
      return Status(401, CategoryNotAllowed), id;
    }
    if name == [] {
      return Status(400, MissingField), id;
    }
    if NameOfAuthor(db.podcasts, caller, name) {
      return Status(400, NameTaken), id;
    }
    if NameUsed(db.podcasts, name) {
      return Status(500, ConstraintViolation), id;
    }
    id := NewId(db.podcasts.Keys);
    var p := Podcast(id, name, summary, description, caller, category);
    AddPodcastKeepsValid(db.Snapshot(), p);
    Users.UserTypeAfterAdd(db.podcasts, p, caller);
    db.podcasts := db.podcasts[id := p];
    ghost var before := db.Snapshot();
    var batch := NotifyNewPodcast(db, p);
    assert db.Snapshot() == before.(notifications := before.notifications + batch);
    status := Status(201, Done);
  }

  /** A podcast with a fresh identifier and an unused name keeps every
      constraint. */
  lemma AddPodcastKeepsValid(t: Tables, p: Podcast)
    requires Valid(t) && p.id !in t.podcasts && !NameUsed(t.podcasts, p.name)
    ensures Valid(t.(podcasts := t.podcasts[p.id := p]))
  {
    var ps := t.podcasts[p.id := p];
    forall a, b | a in ps && b in ps && ps[a].name == ps[b].name ensures a == b {
      if a != p.id && b != p.id {
        assert t.podcasts[a].name == t.podcasts[b].name;
      }
    }
  }

  /** The podcast after `edit_podcast`'s field assignments: each field given
      a non-empty value takes it, the others keep theirs. */
  function Edited(
    p: Podcast, newName: Option<string>, newSummary: Option<string>,
    newDescription: Option<string>, newCategory: Option<string>): (q: Podcast)
    ensures q.id == p.id && q.author == p.author
    ensures q.name == (if Given(newName) then newName.value else p.name)
    ensures q.summary == (if Given(newSummary) then newSummary.value else p.summary)
    ensures q.description == (if Given(newDescription) then newDescription.value else p.description)
    ensures q.category == (if Given(newCategory) then newCategory else p.category)
  {
    p.(name := if Given(newName) then newName.value else p.name,
       summary := if Given(newSummary) then newSummary.value else p.summary,
       description := if Given(newDescription) then newDescription.value else p.description,
       category := if Given(newCategory) then newCategory else p.category)
  }

  /** An edit that supplies nothing changes nothing, and an edit applied
      twice is the edit applied once. */
  lemma EditedIdentityAndIdempotent(
    p: Podcast, newName: Option<string>, newSummary: Option<string>,
    newDescription: Option<string>, newCategory: Option<string>)
    ensures Edited(p, None, None, None, None) == p
    ensures var q := Edited(p, newName, newSummary, newDescription, newCategory);
            Edited(q, newName, newSummary, newDescription, newCategory) == q
  {
  }

  /** `PUT /podcasts/<id>`. In order: a category outside `categories` gives
      401; a missing podcast, or one the caller did not write, 404; a new
      name that the caller already uses for another podcast 400, and one
      that another author uses 500 at commit. Otherwise the podcast gets
      every field supplied non-empty, and nothing else changes. */
  method EditPodcast(
    db: Session, categories: set<string>, caller: Id, podcast: Id,
    newName: Option<string>, newSummary: Option<string>,
    newDescription: Option<string>, newCategory: Option<string>)
    returns (status: Status)
    requires Valid(db.Snapshot())
    modifies db
    ensures Valid(db.Snapshot())
    ensures CategoryRejected(newCategory, categories) ==> status == Status(401, CategoryNotAllowed)
    ensures (!CategoryRejected(newCategory, categories) &&
             (podcast !in old(db.podcasts) || old(db.podcasts)[podcast].author != caller)) ==>
              status == Status(404, NotFound)
    ensures (!CategoryRejected(newCategory, categories) && podcast in old(db.podcasts) &&
             old(db.podcasts)[podcast].author == caller && Given(newName) &&
             newName.value != old(db.podcasts)[podcast].name &&
             NameOfAuthor(old(db.podcasts), caller, newName.value)) ==>
              status == Status(400, NameTaken)
    ensures (!CategoryRejected(newCategory, categories) && podcast in old(db.podcasts) &&
             old(db.podcasts)[podcast].author == caller && Given(newName) &&
             newName.value != old(db.podcasts)[podcast].name &&
             !NameOfAuthor(old(db.podcasts), caller, newName.value) &&
             NameUsed(old(db.podcasts), newName.value)) ==>
              status == Status(500, ConstraintViolation)
    ensures status.code == 201 <==>
              !CategoryRejected(newCategory, categories) && podcast in old(db.podcasts) &&
              old(db.podcasts)[podcast].author == caller &&
              !(Given(newName) && newName.value != old(db.podcasts)[podcast].name &&
                NameUsed(old(db.podcasts), newName.value))
    ensures status.code == 500 ==> status.cause == ConstraintViolation
    ensures status.code != 201 ==> db.Snapshot() == old(db.Snapshot())
    ensures status.code == 201 ==>
              status.cause == Done &&
              db.Snapshot() == old(db.Snapshot()).(podcasts := old(db.podcasts)[podcast :=
                Edited(old(db.podcasts)[podcast], newName, newSummary, newDescription, newCategory)])
  {
    if CategoryRejected(newCategory, categories) {
      return Status(401, CategoryNotAllowed);
    }
    if podcast !in db.podcasts {
      return Status(404, NotFound);
    }
    var p := db.podcasts[podcast];
    if p.author != caller {
      return Status(404, NotFound);
    }
    if Given(newName) && newName.value != p.name {
      if NameOfAuthor(db.podcasts, caller, newName.value) {
        return Status(400, NameTaken);
      }
      if NameUsed(db.podcasts, newName.value) {
        return Status(500, ConstraintViolation);
      }
    }
    var q := Edited(p, newName, newSummary, newDescription, newCategory);
    EditPodcastKeepsValid(db.Snapshot(), q);
    db.podcasts := db.podcasts[podcast := q];
    status := Status(201, Done);
  }

  /** Replacing a podcast by one with the same identifier and either its
      old name or an unused one keeps every constraint. */
  lemma EditPodcastKeepsValid(t: Tables, q: Podcast)
    requires Valid(t) && q.id in t.podcasts
    requires q.name == t.podcasts[q.id].name || !NameUsed(t.podcasts, q.name)
    ensures Valid(t.(podcasts := t.podcasts[q.id := q]))
  {
    var ps := t.podcasts[q.id := q];
    forall a, b | a in ps && b in ps && a != b ensures ps[a].name != ps[b].name {
      if a == q.id {
        assert ps[b] == t.podcasts[b];
      } else if b == q.id {
        assert ps[a] == t.podcasts[a];
      }
    }
  }

  /** `DELETE /podcasts/<id>`: a missing podcast, or one the caller did not
      write, gives 404; otherwise exactly that podcast is removed. */
  method DeletePodcast(db: Session, caller: Id, podcast: Id) returns (status: Status)
    requires Valid(db.Snapshot())
    modifies db
    ensures Valid(db.Snapshot())
    ensures podcast !in old(db.podcasts) || old(db.podcasts)[podcast].author != caller ==>
              status == Status(404, NotFound) && db.Snapshot() == old(db.Snapshot())
    ensures podcast in old(db.podcasts) && old(db.podcasts)[podcast].author == caller ==>
              status == Status(200, Done) &&
              db.Snapshot() == old(db.Snapshot()).(podcasts := old(db.podcasts) - {podcast})
    ensures podcast in old(db.podcasts) && old(db.podcasts)[podcast].author == caller ==>
              (Users.UserType(db.podcasts, caller) == "user" <==>
               forall k :: k in old(db.podcasts) && k != podcast ==> old(db.podcasts)[k].author != caller)
  {
    if podcast !in db.podcasts || db.podcasts[podcast].author != caller {
      return Status(404, NotFound);
    }
    Users.UserTypeAfterRemove(db.podcasts, podcast, caller);
    db.podcasts := db.podcasts - {podcast};
    status := Status(200, Done);
  }

  // The podcast search.

  /** Every podcast row, in the order the database lists them. */
  ghost predicate ListsPodcasts(rows: seq<Podcast>, podcasts: map<Id, Podcast>) {
    forall p :: p in rows <==> p in podcasts.Values
  }

  /** `GET /search/podcast/<name>`: names compared in plain form, with
      threshold 0.45. An exact match is the stored podcast of that name. */
  method SearchPodcast(db: Session, rows: seq<Podcast>, query: string) returns (r: Outcome<Podcast>)
    requires query != []
    requires ListsPodcasts(rows, db.podcasts)
    ensures r == Matches(rows, PodcastName, query, PodcastPolicy)
    ensures r.Exact? <==> NameUsed(db.podcasts, query)
    ensures r.Exact? ==> r.row in db.podcasts.Values && r.row.name == query
  {
    r := FindMatches(rows, PodcastName, query, PodcastPolicy);
    if NameUsed(db.podcasts, query) {
      var k :| k in db.podcasts && db.podcasts[k].name == query;
      assert db.podcasts[k] in rows;
    }
  }

  // Favorites.

  /** `POST /favorites`: a missing id gives 400, an unknown podcast 404, a
      podcast already in the caller's list 400; otherwise exactly the pair
      (podcast, caller) is added. */
  method PostFavorite(db: Session, caller: Id, id: Option<Id>) returns (status: Status)
    modifies db
    ensures id.None? ==> status == Status(400, MissingField)
    ensures id.Some? && id.value !in old(db.podcasts) ==> status == Status(404, NotFound)
    ensures id.Some? && id.value in old(db.podcasts) && Favorite(id.value, caller) in old(db.favorites) ==>
              status == Status(400, AlreadyPresent)
    ensures status.code == 201 <==>
              id.Some? && id.value in old(db.podcasts) && Favorite(id.value, caller) !in old(db.favorites)
    ensures status.code != 201 ==> db.Snapshot() == old(db.Snapshot())
    ensures status.code == 201 ==>
              status.cause == Done &&
              db.Snapshot() == old(db.Snapshot()).(favorites := old(db.favorites) + {Favorite(id.value, caller)})
  {
    if id.None? {
      return Status(400, MissingField);
    }
    if id.value !in db.podcasts {
      return Status(404, NotFound);
    }
    if Favorite(id.value, caller) in db.favorites {
      return Status(400, AlreadyPresent);
    }
    db.favorites := db.favorites + {Favorite(id.value, caller)};
    status := Status(201, Done);
  }

  /** `DELETE /favorites/<id>`: a pair that is not there gives 404;
      otherwise exactly that pair is removed. */
  method DeleteFavorite(db: Session, caller: Id, id: Id) returns (status: Status)
    modifies db
    ensures Favorite(id, caller) !in old(db.favorites) ==>
              status == Status(404, NotPresent) && db.Snapshot() == old(db.Snapshot())
    ensures Favorite(id, caller) in old(db.favorites) ==>
              status == Status(200, Done) &&
              db.Snapshot() == old(db.Snapshot()).(favorites := old(db.favorites) - {Favorite(id, caller)})
  {
    if Favorite(id, caller) !in db.favorites {
      return Status(404, NotPresent);
    }
    db.favorites := db.favorites - {Favorite(id, caller)};
    status := Status(200, Done);
  }

  /** `GET /favorites`: the podcasts in the user's list, joined with the
      podcast and its author, so rows pointing nowhere are not listed. */
  function FavoritePodcasts(t: Tables, user: Id): (r: set<Podcast>)
    ensures forall p :: p in r ==> p in t.podcasts.Values && Favorite(p.id, user) in t.favorites
  {
    set f | f in t.favorites && f.user == user && f.podcast in t.podcasts &&
            t.podcasts[f.podcast].author in t.users && t.podcasts[f.podcast].id == f.podcast
          :: t.podcasts[f.podcast]
  }

  /** A podcast whose author exists is listed right after it is added to
      the favorites, and no longer listed once it is removed. */
  lemma FavoritesListFollowsUpdates(t: Tables, user: Id, id: Id)
    requires Valid(t) && id in t.podcasts && t.podcasts[id].author in t.users
    ensures t.podcasts[id] in FavoritePodcasts(t.(favorites := t.favorites + {Favorite(id, user)}), user)
    ensures t.podcasts[id] !in FavoritePodcasts(t.(favorites := t.favorites - {Favorite(id, user)}), user)
  {
    var added := t.(favorites := t.favorites + {Favorite(id, user)});
    assert Favorite(id, user) in added.favorites;
  }

  // The populars ranking.

  /** `views` in the populars query: the User_episode rows whose episode
      belongs to the podcast. */
  function Views(userEpisodes: map<(Id, Id), int>, episodes: map<Id, Episode>, podcast: Id): nat {
    |set k | k in userEpisodes && k.0 in episodes && episodes[k.0].podcast == podcast|
  }

  /** The first time a user plays an episode adds one view to its podcast;
      later position updates add none. */
  lemma ViewsOnPlay(userEpisodes: map<(Id, Id), int>, episodes: map<Id, Episode>, e: Id, u: Id, sec: int)
    requires e in episodes
    ensures (e, u) !in userEpisodes ==>
              Views(userEpisodes[(e, u) := sec], episodes, episodes[e].podcast) ==
              Views(userEpisodes, episodes, episodes[e].podcast) + 1
    ensures (e, u) in userEpisodes ==>
              Views(userEpisodes[(e, u) := sec], episodes, episodes[e].podcast) ==
              Views(userEpisodes, episodes, episodes[e].podcast)
  {
    var pid := episodes[e].podcast;
    var before := set k | k in userEpisodes && k.0 in episodes && episodes[k.0].podcast == pid;
    var after := set k | k in userEpisodes[(e, u) := sec] && k.0 in episodes && episodes[k.0].podcast == pid;
    assert after == before + {(e, u)};
  }

  datatype Popular = Popular(podcast: Podcast, views: nat)

  const PopularsLimit := 10

  /** `order_by(views.desc())`: views never increase along the list. */
  predicate ByViews(s: seq<Popular>) {
    forall i, j :: 0 <= i < j < |s| ==> s[i].views >= s[j].views
  }

  function InsertByViews(x: Popular, s: seq<Popular>): (r: seq<Popular>)
    requires ByViews(s)
    ensures ByViews(r)
    ensures multiset(r) == multiset(s) + multiset{x}
  {
    if s == [] || x.views >= s[0].views then [x] + s
    else
      var rest := InsertByViews(x, s[1..]);
      InsertedBelowHead(x, s, rest);
      assert s == [s[0]] + s[1..];
      [s[0]] + rest
  }

  /** What is inserted after the head has no more views than the head. */
  lemma InsertedBelowHead(x: Popular, s: seq<Popular>, rest: seq<Popular>)
    requires s != [] && ByViews(s) && x.views < s[0].views
    requires multiset(rest) == multiset(s[1..]) + multiset{x}
    ensures forall k :: 0 <= k < |rest| ==> rest[k].views <= s[0].views
  {
    forall k | 0 <= k < |rest| ensures rest[k].views <= s[0].views {
      assert rest[k] in multiset(rest);
      if rest[k] != x {
        assert rest[k] in s[1..];
        var j :| 0 <= j < |s[1..]| && s[1..][j] == rest[k];
        assert s[j + 1] == rest[k];
      }
    }
  }

  function SortByViews(s: seq<Popular>): (r: seq<Popular>)
    ensures ByViews(r)
    ensures multiset(r) == multiset(s)
  {
    if s == [] then []
    else
      assert s == [s[0]] + s[1..];
      InsertByViews(s[0], SortByViews(s[1..]))
  }

  /** `where(views > 0)`: the rows with at least one view, with their views. */
  function Viewed(rows: seq<Podcast>, userEpisodes: map<(Id, Id), int>, episodes: map<Id, Episode>): (r: seq<Popular>)
    ensures forall x :: x in r <==>
              x.podcast in rows && x.views == Views(userEpisodes, episodes, x.podcast.id) && x.views > 0
  {
    if rows == [] then []
    else
      var v := Views(userEpisodes, episodes, rows[0].id);
      var rest := Viewed(rows[1..], userEpisodes, episodes);
      assert forall p :: p in rows <==> p == rows[0] || p in rows[1..];
      if v > 0 then [Popular(rows[0], v)] + rest else rest
  }

  /** No two rows of the podcast table share an identifier (its primary key). */
  predicate DistinctIds(rows: seq<Podcast>) {
    forall i, j :: 0 <= i < j < |rows| ==> rows[i].id != rows[j].id
  }

  /** `group_by(podcast.c.id)`: no podcast is ranked twice. */
  predicate DistinctPodcasts(s: seq<Popular>) {
    forall i, j :: 0 <= i < j < |s| ==> s[i].podcast.id != s[j].podcast.id
  }

  /** Each podcast of a table without repeated identifiers is listed at most
      once among the viewed ones. */
  lemma {:induction false} ViewedOnce(rows: seq<Podcast>, userEpisodes: map<(Id, Id), int>, episodes: map<Id, Episode>)
    requires DistinctIds(rows)
    ensures DistinctPodcasts(Viewed(rows, userEpisodes, episodes))
  {
    if rows != [] {
      var rest := Viewed(rows[1..], userEpisodes, episodes);
      ViewedOnce(rows[1..], userEpisodes, episodes);
      forall x | x in rest ensures x.podcast.id != rows[0].id {
        var j :| 0 <= j < |rows[1..]| && rows[1..][j] == x.podcast;
        assert rows[j + 1] == x.podcast;
      }
    }
  }

  /** Inserting a podcast not yet in a list without repeats gives a list
      without repeats. */
  lemma {:induction false} InsertKeepsDistinct(x: Popular, s: seq<Popular>)
    requires ByViews(s) && DistinctPodcasts(s)
    requires forall y :: y in s ==> y.podcast.id != x.podcast.id
    ensures DistinctPodcasts(InsertByViews(x, s))
  {
    if !(s == [] || x.views >= s[0].views) {
      var rest := InsertByViews(x, s[1..]);
      InsertKeepsDistinct(x, s[1..]);
      forall y | y in rest ensures y.podcast.id != s[0].podcast.id {
        assert y in multiset(rest);
        if y != x {
          var j :| 0 <= j < |s[1..]| && s[1..][j] == y;
          assert s[j + 1] == y;
        }
      }
    }
  }

  /** Sorting a list without repeats gives a list without repeats. */
  lemma {:induction false} SortKeepsDistinct(s: seq<Popular>)
    requires DistinctPodcasts(s)
    ensures DistinctPodcasts(SortByViews(s))
  {
    if s != [] {
      var sorted := SortByViews(s[1..]);
      SortKeepsDistinct(s[1..]);
      forall y | y in sorted ensures y.podcast.id != s[0].podcast.id {
        assert y in multiset(sorted);
        var j :| 0 <= j < |s[1..]| && s[1..][j] == y;
        assert s[j + 1] == y;
      }
      InsertKeepsDistinct(s[0], sorted);
    }
  }

  /** `GET /populars`: at most ten podcasts, only viewed ones, by views
      descending, none listed more often than it is viewed (so, over a table
      without repeated identifiers, none twice). A viewed podcast is left
      out only when the list is full and it has no more views than the last
      one listed. */
  function Populars(rows: seq<Podcast>, userEpisodes: map<(Id, Id), int>, episodes: map<Id, Episode>): (r: seq<Popular>)
    ensures |r| <= PopularsLimit
    ensures ByViews(r)
    ensures forall x :: x in r ==>
              x.podcast in rows && x.views == Views(userEpisodes, episodes, x.podcast.id) && x.views > 0
    ensures forall p :: (p in rows && Views(userEpisodes, episodes, p.id) > 0 &&
                         Popular(p, Views(userEpisodes, episodes, p.id)) !in r) ==>
              |r| == PopularsLimit && Views(userEpisodes, episodes, p.id) <= r[|r| - 1].views
    ensures multiset(r) <= multiset(Viewed(rows, userEpisodes, episodes))
    ensures DistinctIds(rows) ==> DistinctPodcasts(r)
  {
    var viewed := Viewed(rows, userEpisodes, episodes);
    var sorted := SortByViews(viewed);
    var r := if |sorted| <= PopularsLimit then sorted else sorted[..PopularsLimit];
    RankedTopViewed(rows, userEpisodes, episodes, viewed, sorted, r);
    RankedTopComplete(rows, userEpisodes, episodes, viewed, sorted, r);
    RankedTopOnce(rows, userEpisodes, episodes, viewed, sorted, r);
    r
  }

  /** The first ten of the sorted viewed podcasts are viewed podcasts with
      their views. */
  lemma RankedTopViewed(
    rows: seq<Podcast>, userEpisodes: map<(Id, Id), int>, episodes: map<Id, Episode>,
    viewed: seq<Popular>, sorted: seq<Popular>, r: seq<Popular>)
    requires viewed == Viewed(rows, userEpisodes, episodes)
    requires ByViews(sorted) && multiset(sorted) == multiset(viewed)
    requires r == if |sorted| <= PopularsLimit then sorted else sorted[..PopularsLimit]
    ensures ByViews(r)
    ensures forall x :: x in r ==>
              x.podcast in rows && x.views == Views(userEpisodes, episodes, x.podcast.id) && x.views > 0
  {
    TopOfSorted(viewed, sorted, r);
    forall i, j | 0 <= i < j < |r| ensures r[i].views >= r[j].views {
      assert r[i] == sorted[i] && r[j] == sorted[j];
    }
  }

  /** A viewed podcast left out of the first ten ranks no higher than the
      tenth. */
  lemma RankedTopComplete(
    rows: seq<Podcast>, userEpisodes: map<(Id, Id), int>, episodes: map<Id, Episode>,
    viewed: seq<Popular>, sorted: seq<Popular>, r: seq<Popular>)
    requires viewed == Viewed(rows, userEpisodes, episodes)
    requires ByViews(sorted) && multiset(sorted) == multiset(viewed)
    requires r == if |sorted| <= PopularsLimit then sorted else sorted[..PopularsLimit]
    ensures forall p :: (p in rows && Views(userEpisodes, episodes, p.id) > 0 &&
                         Popular(p, Views(userEpisodes, episodes, p.id)) !in r) ==>
              |r| == PopularsLimit && Views(userEpisodes, episodes, p.id) <= r[|r| - 1].views
  {
    TopOfSorted(viewed, sorted, r);
    forall p | p in rows && Views(userEpisodes, episodes, p.id) > 0 &&
               Popular(p, Views(userEpisodes, episodes, p.id)) !in r
      ensures |r| == PopularsLimit && Views(userEpisodes, episodes, p.id) <= r[|r| - 1].views
    {
      assert Popular(p, Views(userEpisodes, episodes, p.id)) in viewed;
    }
  }

  /** The first ten of the sorted viewed podcasts are drawn from them, and
      repeat none when the table repeats no identifier. */
  lemma RankedTopOnce(
    rows: seq<Podcast>, userEpisodes: map<(Id, Id), int>, episodes: map<Id, Episode>,
    viewed: seq<Popular>, sorted: seq<Popular>, r: seq<Popular>)
    requires viewed == Viewed(rows, userEpisodes, episodes) && sorted == SortByViews(viewed)
    requires r == if |sorted| <= PopularsLimit then sorted else sorted[..PopularsLimit]
    ensures multiset(r) <= multiset(viewed)
    ensures DistinctIds(rows) ==> DistinctPodcasts(r)
  {
    TopIsDistinct(viewed, sorted, r);
    SortedViewedOnce(rows, userEpisodes, episodes);
  }

  /** The first ten of a sorted list are drawn from it, and repeat none
      when it repeats none. */
  lemma TopIsDistinct(viewed: seq<Popular>, sorted: seq<Popular>, r: seq<Popular>)
    requires multiset(sorted) == multiset(viewed)
    requires r == if |sorted| <= PopularsLimit then sorted else sorted[..PopularsLimit]
    ensures multiset(r) <= multiset(viewed)
    ensures DistinctPodcasts(sorted) ==> DistinctPodcasts(r)
  {
    assert sorted == r + sorted[|r|..];
  }

  /** Ranking a table without repeated identifiers ranks no podcast twice. */
  lemma SortedViewedOnce(rows: seq<Podcast>, userEpisodes: map<(Id, Id), int>, episodes: map<Id, Episode>)
    ensures DistinctIds(rows) ==> DistinctPodcasts(SortByViews(Viewed(rows, userEpisodes, episodes)))
  {
    if DistinctIds(rows) {
      ViewedOnce(rows, userEpisodes, episodes);
      SortKeepsDistinct(Viewed(rows, userEpisodes, episodes));
    }
  }

  /** The first ten of a list sorted by views hold everything the list
      holds, or else the views of each element left out are at most those of
      the tenth. */
  lemma TopOfSorted(viewed: seq<Popular>, sorted: seq<Popular>, r: seq<Popular>)
    requires ByViews(sorted) && multiset(sorted) == multiset(viewed)
    requires r == if |sorted| <= PopularsLimit then sorted else sorted[..PopularsLimit]
    ensures forall x :: x in r ==> x in viewed
    ensures forall x :: x in viewed && x !in r ==> |r| == PopularsLimit && x.views <= r[|r| - 1].views
  {
    assert forall x :: x in sorted <==> x in multiset(sorted);
    assert forall x :: x in viewed <==> x in multiset(viewed);
    forall x | x in viewed && x !in r
      ensures |r| == PopularsLimit && x.views <= r[|r| - 1].views
    {
      assert x in sorted;
      var k :| 0 <= k < |sorted| && sorted[k] == x;
      assert k >= PopularsLimit;
    }
  }

  // The podcast search on the rows of the search tests.

  /** The three podcasts of the search tests, as the database lists them. */
  predicate SearchTestRows(rows: seq<Podcast>) {
    && |rows| == 3
    && rows[0].name == "Programming for dummies"
    && rows[1].name == "Programming for fun"
    && rows[2].name == "Cooking master"
  }

  /** "Programming for dummies" is an exact match: that podcast alone,
      status 201. */
  lemma SearchProgrammingForDummies(rows: seq<Podcast>, query: string)
    requires SearchTestRows(rows) && query == "Programming for dummies"
    ensures Matches(rows, PodcastName, query, PodcastPolicy) == Exact(rows[0])
    ensures Matches(rows, PodcastName, query, PodcastPolicy).Code() == 201
  {
    assert FirstNamed(rows, PodcastName, query) == Some(rows[0]);
  }

  /** "Programin for dumies" has no exact match; "Programming for dummies"
      comes first at distance 3 of 23 (86.96 %), then "Programming for fun"
      at distance at most 7 of 20 (at least 65 %). */
  lemma SearchProgramin(rows: seq<Podcast>, query: string)
    requires SearchTestRows(rows) && query == "Programin for dumies"
    ensures Matches(rows, PodcastName, query, PodcastPolicy).Partial?
    ensures var hits := Matches(rows, PodcastName, query, PodcastPolicy).hits;
            |hits| >= 2 && hits[0] == Hit(rows[0], Score(3, 23)) &&
            hits[1].row == rows[1] && hits[1].score.maxLen == 20 && hits[1].score.dist <= 7
    ensures Percentage(Score(3, 23)) == 2000.0 / 23.0
    ensures forall d: nat :: d <= 7 ==> Percentage(Score(d, 20)) >= 65.0
  {
    ProgramminScores(rows, query);
    assert FirstNamed(rows, PodcastName, query) == None;
    var rest := FuzzyHits(rows[1..], PodcastName, query, PodcastPolicy);
    assert rows[1..][0] == rows[1];
    assert FuzzyHits(rows, PodcastName, query, PodcastPolicy) ==
             [Hit(rows[0], Score(3, 23))] + rest;
    assert rest[0].row == rows[1] && rest[0].score == ScoreOf(rows[1].name, query, PodcastPolicy);
    forall d: nat | d <= 7 ensures Percentage(Score(d, 20)) >= 65.0 {
      assert Percentage(Score(d, 20)) == 100.0 * (20 - d) as real / 20.0;
    }
  }

  lemma ProgramminScores(rows: seq<Podcast>, query: string)
    requires SearchTestRows(rows) && query == "Programin for dumies"
    ensures forall i :: 0 <= i < 3 ==> PodcastName(rows[i]) != query
    ensures ScoreOf(rows[0].name, query, PodcastPolicy) == Score(3, 23)
    ensures ScoreOf(rows[1].name, query, PodcastPolicy).maxLen == 20
    ensures ScoreOf(rows[1].name, query, PodcastPolicy).dist <= 7
  {
    LevDummies(rows[0].name, query);
    LevFun(rows[1].name, query);
  }

  /** Three deletions ("m", "g", "m"), and no fewer: the lengths differ by 3. */
  lemma LevDummies(x: string, y: string)
    requires x == "Programming for dummies" && y == "Programin for dumies"
    ensures Lev(Plain(x), Plain(y)) == 3
  {
    DummiesPieces(x, y);
    CutAtThreeMarks(x, 7, 10, 19);
    CutThrice(y, 7, 9, 17);
    var a2, b2 := x[11..19] + [x[19]] + x[20..], x[11..19] + x[20..];
    var a1, b1 := x[8..10] + [x[10]] + a2, x[8..10] + b2;
    PlainDeleteInside(x[..7], x[7], a1, b1);
    PlainDeleteInside(x[8..10], x[10], a2, b2);
    PlainDeleteInside(x[11..19], x[19], x[20..], x[20..]);
    LevSelf(Plain(x[20..]));
    LevAtLeastLengthGap(Plain(x), Plain(y));
  }

  lemma DummiesPieces(x: string, y: string)
    requires x == "Programming for dummies" && y == "Programin for dumies"
    ensures x[..7] == y[..7] && x[8..10] == y[7..9] && x[11..19] == y[9..17] && x[20..] == y[17..]
  {
  }

  /** Two deletions ("m", "g"), one substitution ("f" for "d"), then "n"
      against "mies" costs at most 4. */
  lemma LevFun(x: string, y: string)
    requires x == "Programming for fun" && y == "Programin for dumies"
    ensures Lev(Plain(x), Plain(y)) <= 7
  {
    FunPieces(x, y);
    CutAtThreeMarks(x, 7, 10, 16);
    CutTwiceThenMark(y, 7, 9, 14);
    var a3, b3 := x[17..], y[15..];
    assert a3 == x[17..18] + x[18..] && b3 == x[17..18] + y[16..];
    var a2, b2 := x[11..16] + [x[16]] + a3, x[11..16] + [y[14]] + b3;
    var a1, b1 := x[8..10] + [x[10]] + a2, x[8..10] + b2;
    PlainDeleteInside(x[..7], x[7], a1, b1);
    PlainDeleteInside(x[8..10], x[10], a2, b2);
    PlainReplaceInside(x[11..16], x[16], y[14], a3, b3);
    PlainCommonPrefix(x[17..18], x[18..], y[16..]);
    LevAtMostLonger(Plain(x[18..]), Plain(y[16..]));
  }

  lemma FunPieces(x: string, y: string)
    requires x == "Programming for fun" && y == "Programin for dumies"
    ensures x[..7] == y[..7] && x[8..10] == y[7..9] && x[11..16] == y[9..14] && x[17..18] == y[15..16]
    ensures |x| == 19 && |y| == 20
  {
  }

  // Cutting a string into pieces.

  lemma CutThrice(s: string, i: nat, j: nat, k: nat)
    requires i <= j <= k <= |s|
    ensures s == s[..i] + (s[i..j] + (s[j..k] + s[k..]))
  {
    assert s[j..] == s[j..k] + s[k..];
    assert s[i..] == s[i..j] + s[j..];
    assert s == s[..i] + s[i..];
  }

  lemma CutTwiceThenMark(s: string, i: nat, j: nat, k: nat)
    requires i <= j <= k < |s|
    ensures s == s[..i] + (s[i..j] + (s[j..k] + [s[k]] + s[k + 1..]))
  {
    assert s[j..] == s[j..k] + [s[k]] + s[k + 1..];
    assert s[i..] == s[i..j] + s[j..];
    assert s == s[..i] + s[i..];
  }

  lemma CutAtThreeMarks(s: string, i: nat, j: nat, k: nat)
    requires i < j < k < |s|
    ensures s == s[..i] + [s[i]] + (s[i + 1..j] + [s[j]] + (s[j + 1..k] + [s[k]] + s[k + 1..]))
  {
    assert s[j + 1..] == s[j + 1..k] + [s[k]] + s[k + 1..];
    assert s[i + 1..] == s[i + 1..j] + [s[j]] + s[j + 1..];
    assert s == s[..i] + [s[i]] + s[i + 1..];
  }

  /** The edit lemmas, stated on plain forms. */
  lemma PlainCommonPrefix(p: string, a: string, b: string)
    ensures Lev(Plain(p + a), Plain(p + b)) <= Lev(Plain(a), Plain(b))
  {
    PlainAppend(p, a);
    PlainAppend(p, b);
    LevCommonPrefix(Plain(p), Plain(a), Plain(b));
  }

  lemma PlainDeleteInside(p: string, c: char, a: string, b: string)
    ensures Lev(Plain(p + [c] + a), Plain(p + b)) <= Lev(Plain(a), Plain(b)) + 1
  {
    PlainAppend(p + [c], a);
    PlainAppend(p, [c]);
    PlainAppend(p, b);
    assert Plain([c]) == [ToLower(c)];
    LevDeleteInside(Plain(p), ToLower(c), Plain(a), Plain(b));
  }

  lemma PlainReplaceInside(p: string, c: char, d: char, a: string, b: string)
    ensures Lev(Plain(p + [c] + a), Plain(p + [d] + b)) <= Lev(Plain(a), Plain(b)) + 1
  {
    PlainAppend(p + [c], a);
    PlainAppend(p, [c]);
    PlainAppend(p + [d], b);
    PlainAppend(p, [d]);
    assert Plain([c]) == [ToLower(c)] && Plain([d]) == [ToLower(d)];
    LevReplaceInside(Plain(p), ToLower(c), ToLower(d), Plain(a), Plain(b));
  }
}
