/** The episode handlers (blueprints/episodes.py): creation and edition with
    per-podcast unique titles and `#`-separated tags, deletion by the
    podcast's author, the playback position, comments and replies with
    owner-only deletion, and the stream-later list. The caller of a
    protected route is an input `caller`. */
module Episodes {
  import opened Wrappers
  import opened Models
  import opened Text
  import opened Tags
  import opened Notifications
  import Podcasts

  /** `filter_by(id_podcast=podcast, title=title).first() is not None`. */
  predicate TitleInPodcast(episodes: map<Id, Episode>, podcast: Id, title: string) {
    exists k :: k in episodes && episodes[k].podcast == podcast && episodes[k].title == title
  }

  /** The tags an episode is created with: those of a non-empty tag field,
      none otherwise. */
  function InitialTags(field: Option<string>): (tags: seq<string>)
    ensures field.Some? && field.value != [] ==> |tags| == Occurrences(field.value, TagSeparator) + 1
    ensures field.None? || field.value == [] ==> tags == []
  {
    match ParseTags(field)
    case Some(tags) => ParsedTags(field.value); tags
    case None => []
  }

  /** `POST /podcasts/<id>/episodes`. In order: an unknown podcast gives
      404, an empty title 400, a title the podcast already has 400. Anyone
      may post: the caller is not compared with the author. Otherwise
      exactly one episode is added under a new identifier, with the parsed
      tags, and each follower of the podcast's author gets one "new_episode"
      notification. */
  method PostEpisode(
    db: Session, caller: Id, podcast: Id, title: string, description: string, tags: Option<string>)
    returns (status: Status, id: Id)
    requires Valid(db.Snapshot())
    modifies db
    ensures Valid(db.Snapshot())
    ensures podcast !in old(db.podcasts) ==> status == Status(404, NotFound)
    ensures podcast in old(db.podcasts) && title == [] ==> status == Status(400, MissingField)
    ensures (podcast in old(db.podcasts) && title != [] && TitleInPodcast(old(db.episodes), podcast, title)) ==>
              status == Status(400, NameTaken)
    ensures status.code == 201 <==>
              podcast in old(db.podcasts) && title != [] && !TitleInPodcast(old(db.episodes), podcast, title)
    ensures status.code != 201 ==> db.Snapshot() == old(db.Snapshot())
    ensures status.code == 201 ==>
              status.cause == Done && id !in old(db.episodes) &&
              var e := Episode(id, title, description, podcast, InitialTags(tags));
              exists batch ::
                IsFanOut(batch, old(db.follows), old(db.podcasts)[podcast].author, NewEpisode,
                         EpisodePayload(e, old(db.podcasts)[podcast])) &&
                db.Snapshot() == old(db.Snapshot()).(episodes := old(db.episodes)[id := e],
                                                     notifications := old(db.notifications) + batch)
  {
    id := 0;
    if podcast !in db.podcasts {
      return Status(404, NotFound), id;
    }
    if title == [] {
      return Status(400, MissingField), id;
    }
    if TitleInPodcast(db.episodes, podcast, title) {
      return Status(400, NameTaken), id;
    }
    id := NewId(db.episodes.Keys);
    var e := Episode(id, title, description, podcast, InitialTags(tags));
    AddEpisodeKeepsValid(db.Snapshot(), e);
    db.episodes := db.episodes[id := e];
    ghost var before := db.Snapshot();
    var batch := NotifyNewEpisode(db, e);
    assert db.Snapshot() == before.(notifications := before.notifications + batch);
    status := Status(201, Done);
  }

  /** An episode with a fresh identifier and a title its podcast does not
      have yet keeps every constraint. */
  lemma AddEpisodeKeepsValid(t: Tables, e: Episode)
    requires Valid(t) && e.id !in t.episodes && !TitleInPodcast(t.episodes, e.podcast, e.title)
    ensures Valid(t.(episodes := t.episodes[e.id := e]))
  {
    var es := t.episodes[e.id := e];
    forall a, b | a in es && b in es && a != b
      ensures es[a].podcast != es[b].podcast || es[a].title != es[b].title
    {
      if a == e.id {
        assert es[b] == t.episodes[b];
      } else if b == e.id {
        assert es[a] == t.episodes[a];
      }
    }
  }

  /** The episode after `edit_episode`'s field assignments: a non-empty
      title or description replaces the old one, and a non-empty tag field
      replaces the tags with its parsed pieces. */
  function EditedEpisode(e: Episode, newTitle: Option<string>, newDescription: Option<string>, newTags: Option<string>)
    : (f: Episode)
    ensures f.id == e.id && f.podcast == e.podcast
    ensures f.title == (if Podcasts.Given(newTitle) then newTitle.value else e.title)
    ensures f.description == (if Podcasts.Given(newDescription) then newDescription.value else e.description)
    ensures Podcasts.Given(newTags) ==>
              (|f.tags| == Occurrences(newTags.value, TagSeparator) + 1 &&
               forall i :: 0 <= i < |f.tags| ==> TagSeparator !in f.tags[i])
    ensures !Podcasts.Given(newTags) ==> f.tags == e.tags
  {
    var tags := (match ParseTags(newTags)
      case Some(tags) => ParsedTags(newTags.value); tags
      case None => e.tags);
    e.(title := if Podcasts.Given(newTitle) then newTitle.value else e.title,
       description := if Podcasts.Given(newDescription) then newDescription.value else e.description,
       tags := tags)
  }

  /** `PUT /episodes/<id>`. In order: a missing episode gives 404; an
      episode whose podcast is gone fails on the missing row (500); a
      caller who is not the podcast's author 404; a new title that another
      episode of the same podcast has 400. Otherwise the episode gets every
      field supplied non-empty, and nothing else changes. */
  method EditEpisode(
    db: Session, caller: Id, episode: Id,
    newTitle: Option<string>, newDescription: Option<string>, newTags: Option<string>)
    returns (status: Status)
    requires Valid(db.Snapshot())
    modifies db
    ensures Valid(db.Snapshot())
    ensures episode !in old(db.episodes) ==> status == Status(404, NotFound)
    ensures (episode in old(db.episodes) && old(db.episodes)[episode].podcast !in old(db.podcasts)) ==>
              status == Status(500, BrokenReference)
    ensures (episode in old(db.episodes) && old(db.episodes)[episode].podcast in old(db.podcasts) &&
             old(db.podcasts)[old(db.episodes)[episode].podcast].author != caller) ==>
              status == Status(404, NotFound)
    ensures (episode in old(db.episodes) && old(db.episodes)[episode].podcast in old(db.podcasts) &&
             old(db.podcasts)[old(db.episodes)[episode].podcast].author == caller &&
             Podcasts.Given(newTitle) && newTitle.value != old(db.episodes)[episode].title &&
             TitleInPodcast(old(db.episodes), old(db.episodes)[episode].podcast, newTitle.value)) ==>
              status == Status(400, NameTaken)
    ensures status.code == 201 <==>
              episode in old(db.episodes) && old(db.episodes)[episode].podcast in old(db.podcasts) &&
              old(db.podcasts)[old(db.episodes)[episode].podcast].author == caller &&
              !(Podcasts.Given(newTitle) && newTitle.value != old(db.episodes)[episode].title &&
                TitleInPodcast(old(db.episodes), old(db.episodes)[episode].podcast, newTitle.value))
    ensures status.code == 400 ==> status.cause == NameTaken
    ensures status.code != 201 ==> db.Snapshot() == old(db.Snapshot())
    ensures status.code == 201 ==>
              status.cause == Done &&
              db.Snapshot() == old(db.Snapshot()).(episodes := old(db.episodes)[episode :=
                EditedEpisode(old(db.episodes)[episode], newTitle, newDescription, newTags)])
  {
    if episode !in db.episodes {
      return Status(404, NotFound);
    }
    var e := db.episodes[episode];
    if e.podcast !in db.podcasts {
      return Status(500, BrokenReference);
    }
    if db.podcasts[e.podcast].author != caller {
      return Status(404, NotFound);
    }
    if Podcasts.Given(newTitle) && newTitle.value != e.title && TitleInPodcast(db.episodes, e.podcast, newTitle.value) {
      return Status(400, NameTaken);
    }
    var f := EditedEpisode(e, newTitle, newDescription, newTags);
    EditEpisodeKeepsValid(db.Snapshot(), f);
    db.episodes := db.episodes[episode := f];
    status := Status(201, Done);
  }

  /** Replacing an episode by one with the same identifier and podcast and
      either its old title or one its podcast does not have keeps every
      constraint. */
  lemma EditEpisodeKeepsValid(t: Tables, f: Episode)
    requires Valid(t) && f.id in t.episodes && f.podcast == t.episodes[f.id].podcast
    requires f.title == t.episodes[f.id].title || !TitleInPodcast(t.episodes, f.podcast, f.title)
    ensures Valid(t.(episodes := t.episodes[f.id := f]))
  {
    var es := t.episodes[f.id := f];
    forall a, b | a in es && b in es && a != b
      ensures es[a].podcast != es[b].podcast || es[a].title != es[b].title
    {
      if a == f.id {
        assert es[b] == t.episodes[b];
      } else if b == f.id {
        assert es[a] == t.episodes[a];
      }
    }
  }

  /** `DELETE /episodes/<id>`: a missing episode gives 404, an episode whose
      podcast is gone 500, a caller who is not the podcast's author 404;
      otherwise exactly that episode is removed. */
  method DeleteEpisode(db: Session, caller: Id, episode: Id) returns (status: Status)
    requires Valid(db.Snapshot())
    modifies db
    ensures Valid(db.Snapshot())
    ensures episode !in old(db.episodes) ==> status == Status(404, NotFound)
    ensures (episode in old(db.episodes) && old(db.episodes)[episode].podcast !in old(db.podcasts)) ==>
              status == Status(500, BrokenReference)
    ensures (episode in old(db.episodes) && old(db.episodes)[episode].podcast in old(db.podcasts) &&
             old(db.podcasts)[old(db.episodes)[episode].podcast].author != caller) ==>
              status == Status(404, NotFound)
    ensures status.code == 200 <==>
              episode in old(db.episodes) && old(db.episodes)[episode].podcast in old(db.podcasts) &&
              old(db.podcasts)[old(db.episodes)[episode].podcast].author == caller
    ensures status.code != 200 ==> db.Snapshot() == old(db.Snapshot())
    ensures status.code == 200 ==>
              status.cause == Done && db.Snapshot() == old(db.Snapshot()).(episodes := old(db.episodes) - {episode})
  {
    if episode !in db.episodes {
      return Status(404, NotFound);
    }
    var podcast := db.episodes[episode].podcast;
    if podcast !in db.podcasts {
      return Status(500, BrokenReference);
    }
    if db.podcasts[podcast].author != caller {
      return Status(404, NotFound);
    }
    db.episodes := db.episodes - {episode};
    status := Status(200, Done);
  }

  // The playback position.

  /** What `get_current_sec` answers for a stored episode: the saved
      position, or 0 before the first play. */
  function PositionOf(userEpisodes: map<(Id, Id), int>, episode: Id, user: Id): (sec: int)
    ensures (episode, user) in userEpisodes ==> sec == userEpisodes[(episode, user)]
    ensures (episode, user) !in userEpisodes ==> sec == 0
  {
    if (episode, user) in userEpisodes then userEpisodes[(episode, user)] else 0
  }

  /** `PUT /update_current_sec/<id>`: a missing position gives 400, an
      unknown episode 404. Otherwise the row of (episode, caller) is
      overwritten when there is one and inserted when there is none: the
      table keeps one row per pair either way. */
  method UpdateCurrentSec(db: Session, caller: Id, episode: Id, sec: Option<int>) returns (status: Status)
    modifies db
    ensures sec.None? ==> status == Status(400, MissingField) && db.Snapshot() == old(db.Snapshot())
    ensures sec.Some? && episode !in old(db.episodes) ==>
              status == Status(404, NotFound) && db.Snapshot() == old(db.Snapshot())
    ensures sec.Some? && episode in old(db.episodes) ==>
              status == Status(201, Done) &&
              db.Snapshot() == old(db.Snapshot()).(userEpisodes := old(db.userEpisodes)[(episode, caller) := sec.value])
  {
    if sec.None? {
      return Status(400, MissingField);
    }
    if episode !in db.episodes {
      return Status(404, NotFound);
    }
    db.userEpisodes := db.userEpisodes[(episode, caller) := sec.value];
    status := Status(201, Done);
  }

  /** `GET /get_current_sec/<id>`: an unknown episode gives 404; otherwise
      the caller's saved position, 0 before the first play. */
  method GetCurrentSec(db: Session, caller: Id, episode: Id) returns (status: Status, sec: int)
    ensures episode !in db.episodes ==> status == Status(404, NotFound)
    ensures episode in db.episodes ==>
              status == Status(201, Done) &&
              ((episode, caller) in db.userEpisodes ==> sec == db.userEpisodes[(episode, caller)]) &&
              ((episode, caller) !in db.userEpisodes ==> sec == 0)
  {
    if episode !in db.episodes {
      return Status(404, NotFound), 0;
    }
    status, sec := Status(201, Done), PositionOf(db.userEpisodes, episode, caller);
  }

  /** The position read back is the one last saved by that user for that
      episode; saving it touches no other user's or episode's position. */
  lemma SavedPositionIsRead(userEpisodes: map<(Id, Id), int>, episode: Id, user: Id, sec: int, e: Id, u: Id)
    ensures PositionOf(userEpisodes[(episode, user) := sec], episode, user) == sec
    ensures (e, u) != (episode, user) ==>
              PositionOf(userEpisodes[(episode, user) := sec], e, u) == PositionOf(userEpisodes, e, u)
  {
  }

  // Comments and replies.

  /** `POST /episodes/<id>/comments`: an unknown episode gives 404, an
      empty or missing content 400; otherwise exactly one comment by the
      caller is added under a new identifier. */
  method PostComment(db: Session, caller: Id, episode: Id, content: Option<string>) returns (status: Status, id: Id)
    requires Valid(db.Snapshot())
    modifies db
    ensures Valid(db.Snapshot())
    ensures episode !in old(db.episodes) ==> status == Status(404, NotFound)
    ensures episode in old(db.episodes) && !Podcasts.Given(content) ==> status == Status(400, MissingField)
    ensures status.code == 201 <==> episode in old(db.episodes) && Podcasts.Given(content)
    ensures status.code != 201 ==> db.Snapshot() == old(db.Snapshot())
    ensures status.code == 201 ==>
              status.cause == Done && id !in old(db.comments) &&
              db.Snapshot() == old(db.Snapshot()).(comments := old(db.comments)[id := Comment(id, content.value, caller, episode)])
  {
    id := 0;
    if episode !in db.episodes {
      return Status(404, NotFound), id;
    }
    if !Podcasts.Given(content) {
      return Status(400, MissingField), id;
    }
    id := NewId(db.comments.Keys);
    db.comments := db.comments[id := Comment(id, content.value, caller, episode)];
    status := Status(201, Done);
  }

  /** `POST /comments/<id>/replies`: an unknown comment gives 404, an empty
      or missing content 400; otherwise exactly one reply by the caller is
      added under a new identifier. */
  method PostReply(db: Session, caller: Id, comment: Id, content: Option<string>) returns (status: Status, id: Id)
    requires Valid(db.Snapshot())
    modifies db
    ensures Valid(db.Snapshot())
    ensures comment !in old(db.comments) ==> status == Status(404, NotFound)
    ensures comment in old(db.comments) && !Podcasts.Given(content) ==> status == Status(400, MissingField)
    ensures status.code == 201 <==> comment in old(db.comments) && Podcasts.Given(content)
    ensures status.code != 201 ==> db.Snapshot() == old(db.Snapshot())
    ensures status.code == 201 ==>
              status.cause == Done && id !in old(db.replies) &&
              db.Snapshot() == old(db.Snapshot()).(replies := old(db.replies)[id := Reply(id, content.value, caller, comment)])
  {
    id := 0;
    if comment !in db.comments {
      return Status(404, NotFound), id;
    }
    if !Podcasts.Given(content) {
      return Status(400, MissingField), id;
    }
    id := NewId(db.replies.Keys);
    db.replies := db.replies[id := Reply(id, content.value, caller, comment)];
    status := Status(201, Done);
  }

  /** `DELETE /comments/<id>`: an unknown comment gives 404, someone else's
      comment 403; otherwise exactly that comment is removed. */
  method DeleteComment(db: Session, caller: Id, comment: Id) returns (status: Status)
    requires Valid(db.Snapshot())
    modifies db
    ensures Valid(db.Snapshot())
    ensures comment !in old(db.comments) ==> status == Status(404, NotFound)
    ensures comment in old(db.comments) && old(db.comments)[comment].user != caller ==>
              status == Status(403, NotOwner)
    ensures status.code == 200 <==> comment in old(db.comments) && old(db.comments)[comment].user == caller
    ensures status.code != 200 ==> db.Snapshot() == old(db.Snapshot())
    ensures status.code == 200 ==>
              status.cause == Done && db.Snapshot() == old(db.Snapshot()).(comments := old(db.comments) - {comment})
  {
    if comment !in db.comments {
      return Status(404, NotFound);
    }
    if db.comments[comment].user != caller {
      return Status(403, NotOwner);
    }
    db.comments := db.comments - {comment};
    status := Status(200, Done);
  }

  /** `DELETE /replies/<id>`: an unknown reply gives 404, someone else's
      reply 403; otherwise exactly that reply is removed. */
  method DeleteReply(db: Session, caller: Id, reply: Id) returns (status: Status)
    requires Valid(db.Snapshot())
    modifies db
    ensures Valid(db.Snapshot())
    ensures reply !in old(db.replies) ==> status == Status(404, NotFound)
    ensures reply in old(db.replies) && old(db.replies)[reply].user != caller ==>
              status == Status(403, NotOwner)
    ensures status.code == 200 <==> reply in old(db.replies) && old(db.replies)[reply].user == caller
    ensures status.code != 200 ==> db.Snapshot() == old(db.Snapshot())
    ensures status.code == 200 ==>
              status.cause == Done && db.Snapshot() == old(db.Snapshot()).(replies := old(db.replies) - {reply})
  {
    if reply !in db.replies {
      return Status(404, NotFound);
    }
    if db.replies[reply].user != caller {
      return Status(403, NotOwner);
    }
    db.replies := db.replies - {reply};
    status := Status(200, Done);
  }

  // The stream-later list.

  /** `POST /stream_later`: a missing id gives 400, an unknown episode 404,
      an episode already in the caller's list 400; otherwise exactly the
      pair (episode, caller) is added. */
  method PostStreamLater(db: Session, caller: Id, id: Option<Id>) returns (status: Status)
    modifies db
    ensures id.None? ==> status == Status(400, MissingField)
    ensures id.Some? && id.value !in old(db.episodes) ==> status == Status(404, NotFound)
    ensures id.Some? && id.value in old(db.episodes) && StreamLater(id.value, caller) in old(db.streamLater) ==>
              status == Status(400, AlreadyPresent)
    ensures status.code == 201 <==>
              id.Some? && id.value in old(db.episodes) && StreamLater(id.value, caller) !in old(db.streamLater)
    ensures status.code != 201 ==> db.Snapshot() == old(db.Snapshot())
    ensures status.code == 201 ==>
              status.cause == Done &&
              db.Snapshot() == old(db.Snapshot()).(streamLater := old(db.streamLater) + {StreamLater(id.value, caller)})
  {
    if id.None? {
      return Status(400, MissingField);
    }
    if id.value !in db.episodes {
      return Status(404, NotFound);
    }
    if StreamLater(id.value, caller) in db.streamLater {
      return Status(400, AlreadyPresent);
    }
    db.streamLater := db.streamLater + {StreamLater(id.value, caller)};
    status := Status(201, Done);
  }

  /** `DELETE /stream_later/<id>`: a pair that is not there gives 404;
      otherwise exactly that pair is removed. */
  method DeleteStreamLater(db: Session, caller: Id, id: Id) returns (status: Status)
    modifies db
    ensures StreamLater(id, caller) !in old(db.streamLater) ==>
              status == Status(404, NotPresent) && db.Snapshot() == old(db.Snapshot())
    ensures StreamLater(id, caller) in old(db.streamLater) ==>
              status == Status(200, Done) &&
              db.Snapshot() == old(db.Snapshot()).(streamLater := old(db.streamLater) - {StreamLater(id, caller)})
  {
    if StreamLater(id, caller) !in db.streamLater {
      return Status(404, NotPresent);
    }
    db.streamLater := db.streamLater - {StreamLater(id, caller)};
    status := Status(200, Done);
  }

  /** `GET /stream_later/<id>`: always 200; `is_liked` says whether the
      episode is in the caller's list. */
  method IsLiked(db: Session, caller: Id, episode: Id) returns (status: Status, liked: bool)
    ensures status == Status(200, Done)
    ensures liked <==> StreamLater(episode, caller) in db.streamLater
  {
    status, liked := Status(200, Done), StreamLater(episode, caller) in db.streamLater;
  }

  /** After a successful add the episode is reported in the list, after a
      successful removal it is not, and adding then removing restores the
      list. */
  lemma StreamLaterRoundTrip(list: set<StreamLater>, episode: Id, user: Id)
    ensures StreamLater(episode, user) in list + {StreamLater(episode, user)}
    ensures StreamLater(episode, user) !in list - {StreamLater(episode, user)}
    ensures StreamLater(episode, user) !in list ==>
              (list + {StreamLater(episode, user)}) - {StreamLater(episode, user)} == list
  {
  }

  // The tag strings of the episode tests.

  /** A tag field without "#" and without surrounding whitespace is one tag,
      itself. */
  lemma SingleTag(field: string)
    requires field != [] && TagSeparator !in field
    requires !IsSpace(field[0]) && !IsSpace(field[|field| - 1])
    ensures InitialTags(Some(field)) == [field]
  {
    SplitWithoutSeparator(field, TagSeparator);
    StripUnpadded(field);
  }

  /** "chill" is the one tag "chill", when an episode is posted with it and
      when an edit sets it. */
  lemma ChillTag(field: string, e: Episode)
    requires field == "chill"
    ensures InitialTags(Some(field)) == ["chill"]
    ensures EditedEpisode(e, None, None, Some(field)).tags == ["chill"]
  {
    SingleTag(field);
  }
}
