/** The persistent records of the service (models.py) and the session that
    holds their tables (`db = SQLAlchemy(...)`, models.py:144).

    Identifiers generated by the database (`gen_random_uuid()`) are abstract
    natural numbers; binary cover and audio blobs are not modelled. */
module Models {
  import opened Wrappers

  type Id = nat

  datatype User = User(id: Id, email: string, username: string, password: string, verified: bool)

  datatype Podcast = Podcast(
    id: Id, name: string, summary: string, description: string,
    author: Id, category: Option<string>)

  datatype Episode = Episode(
    id: Id, title: string, description: string, podcast: Id, tags: seq<string>)

  /** A chapter of an episode; `begin` and `end` are in seconds. */
  datatype Section = Section(begin: int, end: int, title: string, description: string, episode: Id)

  /** A row of the stream-later list and of the favorites list: a pair, which
      is the row's whole primary key. */
  datatype StreamLater = StreamLater(episode: Id, user: Id)
  datatype Favorite = Favorite(podcast: Id, user: Id)

  /** `follower` receives notifications about `followed`'s new content. */
  datatype Follow = Follow(follower: Id, followed: Id)

  datatype Comment = Comment(id: Id, content: string, user: Id, episode: Id)
  datatype Reply = Reply(id: Id, content: string, user: Id, comment: Id)

  /** The `object` of a notification: a snapshot of the new item's public fields. */
  datatype Payload =
    | PodcastSnapshot(id: Id, name: string, summary: string, description: string)
    | EpisodeSnapshot(id: Id, title: string, description: string, podcast: Id)

  datatype Notification = Notification(user: Id, kind: string, payload: Payload)

  /** Every table of the database at one moment. Tables whose primary key is
      the whole row are sets; `userEpisodes` maps the key (episode, user) to
      `current_sec`, `sections` maps the key (title, episode) to the row. */
  datatype Tables = Tables(
    users: map<Id, User>,
    podcasts: map<Id, Podcast>,
    episodes: map<Id, Episode>,
    sections: map<(string, Id), Section>,
    userEpisodes: map<(Id, Id), int>,
    streamLater: set<StreamLater>,
    favorites: set<Favorite>,
    follows: set<Follow>,
    comments: map<Id, Comment>,
    replies: map<Id, Reply>,
    notifications: seq<Notification>)

  /** The constraints the schema declares (primary keys, `unique=True`) and the
      one the handlers maintain themselves: episode titles are unique within
      their podcast. */
  ghost predicate Valid(t: Tables) {
    && (forall k :: k in t.users ==> t.users[k].id == k)
    && (forall k :: k in t.podcasts ==> t.podcasts[k].id == k)
    && (forall k :: k in t.episodes ==> t.episodes[k].id == k)
    && (forall k :: k in t.comments ==> t.comments[k].id == k)
    && (forall k :: k in t.replies ==> t.replies[k].id == k)
    && (forall k :: k in t.sections ==> t.sections[k].title == k.0 && t.sections[k].episode == k.1)
    && UniqueUsernames(t.users)
    && UniqueEmails(t.users)
    && UniquePodcastNames(t.podcasts)
    && UniqueEpisodeTitles(t.episodes)
  }

  ghost predicate UniqueUsernames(users: map<Id, User>) {
    forall a, b :: a in users && b in users && users[a].username == users[b].username ==> a == b
  }

  ghost predicate UniqueEmails(users: map<Id, User>) {
    forall a, b :: a in users && b in users && users[a].email == users[b].email ==> a == b
  }

  ghost predicate UniquePodcastNames(podcasts: map<Id, Podcast>) {
    forall a, b :: a in podcasts && b in podcasts && podcasts[a].name == podcasts[b].name ==> a == b
  }

  ghost predicate UniqueEpisodeTitles(episodes: map<Id, Episode>) {
    forall a, b ::
      (a in episodes && b in episodes && episodes[a].podcast == episodes[b].podcast &&
       episodes[a].title == episodes[b].title) ==> a == b
  }

  /** A table never uses up the identifiers: the database can always generate
      a key that is not yet taken. */
  lemma FreshIdExists(used: set<Id>)
    ensures exists id: Id :: id !in used
  {
    var bound := UpperBound(used);
    assert bound !in used;
  }

  /** The database's `gen_random_uuid()`: some identifier not yet used. */
  method NewId(used: set<Id>) returns (id: Id)
    ensures id !in used
  {
    FreshIdExists(used);
    id :| id !in used;
  }

  /** A number above every identifier in `used`. */
  ghost function UpperBound(used: set<Id>): (bound: Id)
    ensures forall k :: k in used ==> k < bound
    decreases used
  {
    if used == {} then 0
    else
      var x :| x in used;
      var rest := UpperBound(used - {x});
      assert forall k :: k in used && k != x ==> k in used - {x};
      if rest > x then rest else x + 1
  }

  /** Why a handler answered as it did; `code` is the HTTP status it returns. */
  datatype Cause =
    | Done                 // the change was committed, or the read succeeded
    | MissingField         // a required field is empty or absent
    | InvalidEmail
    | InvalidPassword
    | UsernameTaken
    | EmailTaken
    | CategoryNotAllowed
    | NameTaken            // the author already has a podcast, or the podcast an episode, of that name
    | NotFound             // the row does not exist, or the caller may not see it as theirs
    | NotOwner             // the row belongs to another user
    | AlreadyPresent       // the pair is already in the list
    | NotPresent           // the pair is not in the list
    | ConstraintViolation  // the commit is rejected by a `unique` constraint
    | BrokenReference      // a row the handler dereferences is missing

  datatype Status = Status(code: nat, cause: Cause)

  /** The database session: one mutable field per table. */
  class Session {
    var users: map<Id, User>
    var podcasts: map<Id, Podcast>
    var episodes: map<Id, Episode>
    var sections: map<(string, Id), Section>
    var userEpisodes: map<(Id, Id), int>
    var streamLater: set<StreamLater>
    var favorites: set<Favorite>
    var follows: set<Follow>
    var comments: map<Id, Comment>
    var replies: map<Id, Reply>
    var notifications: seq<Notification>

    /** The contents of every table, as one value. */
    function Snapshot(): Tables
      reads this
    {
      Tables(users, podcasts, episodes, sections, userEpisodes, streamLater,
             favorites, follows, comments, replies, notifications)
    }

    constructor ()
      ensures Snapshot() == Tables(map[], map[], map[], map[], map[], {}, {}, {}, map[], map[], [])
      ensures Valid(Snapshot())
    {
      users, podcasts, episodes, sections, userEpisodes := map[], map[], map[], map[], map[];
      streamLater, favorites, follows := {}, {}, {};
      comments, replies, notifications := map[], map[], [];
    }
  }
}
