/** Notification fan-out (utils/notifications.py): when a podcast or an
    episode is created, every follower of its author gets one notification
    carrying a snapshot of the new item. */
module Notifications {
  import opened Models

  const NewPodcast := "new_podcast"
  const NewEpisode := "new_episode"

  /** The `object` of a "new_podcast" notification (notifications.py:17-22). */
  function PodcastPayload(p: Podcast): Payload {
    PodcastSnapshot(p.id, p.name, p.summary, p.description)
  }

  /** The `object` of a "new_episode" notification (notifications.py:42-47). */
  function EpisodePayload(e: Episode, p: Podcast): Payload {
    EpisodeSnapshot(e.id, e.title, e.description, p.id)
  }

  predicate Distinct<T(==)>(s: seq<T>) {
    forall i, j :: 0 <= i < j < |s| ==> s[i] != s[j]
  }

  /** How many notifications of `batch` are addressed to `user`. */
  function CountFor(batch: seq<Notification>, user: Id): nat {
    if batch == [] then 0 else (if batch[0].user == user then 1 else 0) + CountFor(batch[1..], user)
  }

  /** What a fan-out must produce: every notification of the given kind and
      object, and exactly one for each follower of `author`, none for anyone
      else. */
  ghost predicate IsFanOut(batch: seq<Notification>, follows: set<Follow>, author: Id, kind: string, payload: Payload) {
    && (forall n :: n in batch ==> n.kind == kind && n.payload == payload)
    && (forall u :: CountFor(batch, u) == if Follow(u, author) in follows then 1 else 0)
  }

  /** The notifications the loop appends, one per selected Follow row, in
      row order. */
  function FanOut(rows: seq<Follow>, kind: string, payload: Payload): (batch: seq<Notification>)
    ensures |batch| == |rows|
    ensures forall i :: 0 <= i < |rows| ==> batch[i] == Notification(rows[i].follower, kind, payload)
  {
    if rows == [] then [] else [Notification(rows[0].follower, kind, payload)] + FanOut(rows[1..], kind, payload)
  }

  /** Distinct rows that all follow `author` reach each follower exactly once. */
  lemma {:induction false} FanOutReachesEachFollowerOnce(rows: seq<Follow>, author: Id, kind: string, payload: Payload, u: Id)
    requires Distinct(rows)
    requires forall f :: f in rows ==> f.followed == author
    ensures CountFor(FanOut(rows, kind, payload), u) == if Follow(u, author) in rows then 1 else 0
  {
    if rows != [] {
      var batch := FanOut(rows, kind, payload);
      assert batch[1..] == FanOut(rows[1..], kind, payload);
      assert forall f :: f in rows[1..] ==> f in rows;
      FanOutReachesEachFollowerOnce(rows[1..], author, kind, payload, u);
      if rows[0].follower == u {
        assert rows[0] == Follow(u, author);
        assert Follow(u, author) !in rows[1..];
      } else {
        assert Follow(u, author) in rows <==> Follow(u, author) in rows[1..];
      }
    }
  }

  /** The fan-out over exactly the author's Follow rows is the one required. */
  lemma FanOutOfSelectedRows(rows: seq<Follow>, follows: set<Follow>, author: Id, kind: string, payload: Payload)
    requires Distinct(rows)
    requires forall f :: f in rows <==> f in follows && f.followed == author
    ensures IsFanOut(FanOut(rows, kind, payload), follows, author, kind, payload)
  {
    var batch := FanOut(rows, kind, payload);
    forall u ensures CountFor(batch, u) == if Follow(u, author) in follows then 1 else 0 {
      FanOutReachesEachFollowerOnce(rows, author, kind, payload, u);
    }
  }

  /** An author nobody follows causes no notification at all. */
  lemma NoFollowersNoNotifications(batch: seq<Notification>, follows: set<Follow>, author: Id, kind: string, payload: Payload)
    requires IsFanOut(batch, follows, author, kind, payload)
    requires forall f :: f in follows ==> f.followed != author
    ensures batch == []
  {
    if batch != [] {
      assert CountFor(batch, batch[0].user) >= 1;
    }
  }

  /** `select(Follow).where(Follow.id_followed == author).all()`: the author's
      Follow rows, each once, in the order the database returns them. */
  method SelectFollowsOf(db: Session, author: Id) returns (rows: seq<Follow>)
    ensures Distinct(rows)
    ensures forall f :: f in rows <==> f in db.follows && f.followed == author
  {
    var pending := set f | f in db.follows && f.followed == author;
    rows := [];
    while pending != {}
      invariant Distinct(rows)
      invariant forall f :: f in rows ==> f !in pending
      invariant forall f :: f in rows || f in pending <==> f in db.follows && f.followed == author
      decreases pending
    {
      var f :| f in pending;
      rows := rows + [f];
      pending := pending - {f};
    }
  }

  /** `notify_new_podcast` (notifications.py:7-26): builds one notification per
      Follow row of the podcast's author and adds the batch to the table. */
  method NotifyNewPodcast(db: Session, podcast: Podcast) returns (batch: seq<Notification>)
    modifies db
    ensures db.Snapshot() == old(db.Snapshot()).(notifications := old(db.notifications) + batch)
    ensures IsFanOut(batch, db.follows, podcast.author, NewPodcast, PodcastPayload(podcast))
  {
    var rows := SelectFollowsOf(db, podcast.author);
    batch := [];
    for i := 0 to |rows|
      invariant batch == FanOut(rows[..i], NewPodcast, PodcastPayload(podcast))
    {
      batch := batch + [Notification(rows[i].follower, NewPodcast, PodcastPayload(podcast))];
    }
    assert rows[..|rows|] == rows;
    FanOutOfSelectedRows(rows, db.follows, podcast.author, NewPodcast, PodcastPayload(podcast));
    db.notifications := db.notifications + batch;
  }

  /** `notify_new_episode` (notifications.py:29-51): the author is found
      through the episode's podcast, which the caller has just checked. */
  method NotifyNewEpisode(db: Session, episode: Episode) returns (batch: seq<Notification>)
    requires episode.podcast in db.podcasts
    modifies db
    ensures db.Snapshot() == old(db.Snapshot()).(notifications := old(db.notifications) + batch)
    ensures IsFanOut(batch, db.follows, db.podcasts[episode.podcast].author, NewEpisode,
                     EpisodePayload(episode, db.podcasts[episode.podcast]))
  {
    var podcast := db.podcasts[episode.podcast];
    var rows := SelectFollowsOf(db, podcast.author);
    batch := [];
    for i := 0 to |rows|
      invariant batch == FanOut(rows[..i], NewEpisode, EpisodePayload(episode, podcast))
    {
      batch := batch + [Notification(rows[i].follower, NewEpisode, EpisodePayload(episode, podcast))];
    }
    assert rows[..|rows|] == rows;
    FanOutOfSelectedRows(rows, db.follows, podcast.author, NewEpisode, EpisodePayload(episode, podcast));
    db.notifications := db.notifications + batch;
  }
}
