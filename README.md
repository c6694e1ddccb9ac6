# GoPodcast backend core in Dafny

GoPodcast is a podcast platform whose backend is a Flask/SQLAlchemy REST
service. This project models the core of that backend:

- the approximate name search for podcasts and users;
- the e-mail and password checks at sign-up;
- the `#`-separated episode tag parser;
- the check-then-mutate handlers over the database tables (podcasts,
  episodes, follows, favorites, stream-later, playback positions, comments,
  replies);
- the notification fan-out to the followers of an author;
- the most-viewed ("populars") ranking.

## Structure

| module | file | models |
|---|---|---|
| `Wrappers` | wrappers.dfy | `Option` |
| `Models` | models.dfy | the records of models.py, the table snapshot `Tables`, its uniqueness invariant `Valid`, fresh identifiers, and the `Session` class that holds one field per table |
| `EditDistance` | editdistance.dfy | Levenshtein distance, defined recursively, and its bounds |
| `Text` | text.dfy | character classes and the "plain" form (lower-cased) used by the podcast search |
| `Search` | search.dfy | the search shared by both endpoints: exact match first, then a loop that keeps every name within the threshold |
| `Validators` | validators.dfy | the e-mail and password regular expressions as scans, proved equal to the patterns |
| `Tags` | tags.dfy | `str.split('#')`, `str.strip()` and the tag list they build |
| `Notifications` | notifications.dfy | `notify_new_podcast` and `notify_new_episode` |
| `Users` | users.dfy | `create_user`, `search_user`, `get_user` and the follow handlers |
| `Podcasts` | podcasts.dfy | `post_podcast`, `edit_podcast`, `delete_podcast`, `search_podcast`, favorites and populars |
| `Episodes` | episodes.dfy | `post_episode`, `edit_episode`, `delete_episode`, playback position, comments, replies and stream-later |

Each handler is a method over a `Models.Session` object. The identifier of
the logged-in caller is an argument. The answer is a `Status(code, cause)`:
the HTTP status code and the reason. Every handler contract states:

- which guard fires for which input, in the source's order;
- when the answer is a success (an if-and-only-if);
- that nothing changes on an error;
- the whole new table state on success, through
  `db.Snapshot() == old(db.Snapshot()).(table := ...)`.

The handlers that change users, podcasts, episodes, comments or replies
keep `Models.Valid`. It holds the unique columns of models.py (usernames,
e-mails, podcast names) and the per-podcast episode-title uniqueness that
`post_episode` and `edit_episode` keep themselves by checking for a clash
before they write.

Search thresholds are compared by cross-multiplication: `100 * lev <= 45 *
maxLen` for podcasts and `100 * lev <= 40 * maxLen` for users. The match
percentage `(1 - lev / maxLen) * 100` is a `real`.

`models.py:48` makes podcast names unique across all authors. `post_podcast`
and `edit_podcast`, however, only look for a clash among the caller's own
podcasts (`blueprints/podcasts.py:133-137`, `190-207`). A name that another
author already uses therefore gets past the handler's checks and is refused
by the database at commit. The model answers that case with
`Status(500, ConstraintViolation)` and leaves the tables unchanged.

## Model

| member | source | states |
|---|---|---|
| Models.Session.constructor | models.py:19-141 | an empty database satisfies every uniqueness constraint |
| Models.NewId | models.py:22-27 | the database can always produce a key not yet used in a table |
| EditDistance.LevAtMostLonger | blueprints/podcasts.py:286-289 | the Levenshtein distance is at most the longer length, so a normalised distance is at most 1 |
| EditDistance.LevZeroIff | blueprints/podcasts.py:286-289 | the distance is zero exactly when the two strings are equal |
| EditDistance.LevSymmetric | blueprints/podcasts.py:286-289 | the distance does not depend on which string is the query |
| EditDistance.LevAtLeastLengthGap | blueprints/podcasts.py:286-289 | the distance is at least the difference in length |
| EditDistance.LevAtLeastCountGap | blueprints/users.py:138-141 | the distance is at least the difference in how many characters of a set each string holds |
| EditDistance.LevAtMostMismatches | blueprints/users.py:138-141 | between strings of equal length, the distance is at most the number of positions that differ |
| Text.PlainIgnoresCase | blueprints/podcasts.py:274-285 | two strings that differ only in letter case have the same plain form |
| Text.PlainAppend | blueprints/podcasts.py:274-285 | the plain form works character by character |
| Search.ScoreOf | blueprints/podcasts.py:284-289 | a score is the distance of the normalised forms over the longer normalised length, and is at most 1 |
| Search.FirstNamed | blueprints/podcasts.py:248-250 | the exact-match query finds a row exactly when some row carries the queried name |
| Search.FuzzyHits | blueprints/podcasts.py:283-299 | the kept rows are exactly the rows within the threshold, each with its own score |
| Search.FindMatches | blueprints/podcasts.py:248-299 | the handler's loop over the names gives the exact match, the rows within the threshold, or no good matches |
| Search.KeptNamesGiveFuzzyHits | blueprints/podcasts.py:283-299 | querying the rows whose names the loop kept gives the rows within the threshold, and none exactly when the dictionary is empty |
| Search.HitsAmongKept | blueprints/podcasts.py:297-299 | the `in_` query keeps the rows in their stored order |
| Search.ExactMatchWins | blueprints/podcasts.py:248-271 | an exact name match is returned alone with status 201 |
| Search.NearMatchIff | blueprints/podcasts.py:283-299 | without an exact match, a row is returned if and only if its score is within the threshold |
| Search.NoGoodMatchesIff | blueprints/podcasts.py:293-294 | the answer is 404 exactly when no name is equal to the query or within the threshold |
| Search.FuzzyHitsKeepRowOrder | blueprints/podcasts.py:297-299 | the results follow the stored row order, not the score |
| Search.PercentageWithinBounds | blueprints/podcasts.py:315-317 | a returned match percentage lies between 100 minus the threshold and 100 |
| Search.NearMatchesScoreWithinBounds | blueprints/podcasts.py:281-317 | every fuzzy hit of a non-empty query has a percentage between 100 minus the threshold and 100 |
| Search.CaseOnlyDifferenceIsFullMatch | blueprints/podcasts.py:274-291 | a podcast name that differs from the query only in letter case scores distance 0 and 100 % |
| Search.ZeroDistanceIsFullPercentage | blueprints/podcasts.py:315-317 | distance 0 gives 100 % |
| Validators.AllWordChars | blueprints/users.py:36-38 | true exactly when every character is in `\w` |
| Validators.AllEmailChars | blueprints/users.py:36-38 | true exactly when every character is in `[\w\.-]` |
| Validators.FirstIndex | blueprints/users.py:36-38 | finds the first occurrence of a character, or reports that there is none |
| Validators.LastIndex | blueprints/users.py:36-38 | finds the last occurrence of a character, or reports that there is none |
| Validators.ValidEmailMatchesPattern | blueprints/users.py:36-38 | the scan accepts an e-mail exactly when `^[\w\.-]+@[\w\.-]+\.\w+$` matches it |
| Validators.HasLower | blueprints/users.py:41-42 | true exactly when some character is a lower-case letter |
| Validators.HasUpper | blueprints/users.py:41-42 | true exactly when some character is an upper-case letter |
| Validators.HasDigit | blueprints/users.py:41-42 | true exactly when some character is a digit |
| Validators.ValidPasswordMatchesPattern | blueprints/users.py:41-42 | the scan accepts a password exactly when `^(?=.*[a-z])(?=.*[A-Z])(?=.*\d).{6,}$` matches it |
| Validators.EmailAccepted | tests/test_user.py:25 | "susan@gmail.com" is accepted |
| Validators.EmailWithoutAtRejected | tests/test_user.py:97-106 | "susangmail.com" is rejected |
| Validators.EmailWithoutDotRejected | tests/test_user.py:111-120 | "susan@gmailcom" is rejected |
| Validators.EmailWithoutLocalPartRejected | blueprints/users.py:36-38 | "@gmail.com" is rejected |
| Validators.PasswordAccepted | tests/test_user.py:64 | "Contra2segura" is accepted |
| Validators.ShortPasswordRejected | tests/test_user.py:143-152 | "Ca1" is rejected |
| Validators.PasswordWithoutDigitRejected | tests/test_user.py:159-168 | "Contrasegura" is rejected |
| Validators.PasswordWithoutUpperRejected | tests/test_user.py:175-184 | "contra1segura" is rejected |
| Validators.PasswordWithoutLowerRejected | tests/test_user.py:191-200 | "1234567" is rejected |
| Tags.Occurrences | blueprints/episodes.py:338 | counts at most one per character |
| Tags.Split | blueprints/episodes.py:338 | `str.split` always gives at least one piece |
| Tags.SplitCount | blueprints/episodes.py:338 | there is one more piece than there are separators |
| Tags.SplitPiecesAreFree | blueprints/episodes.py:338 | no piece contains the separator |
| Tags.JoinSplit | blueprints/episodes.py:338 | joining the pieces with the separator gives back the input |
| Tags.SplitJoin | blueprints/episodes.py:338 | splitting a join of separator-free pieces gives back the pieces |
| Tags.SplitWithoutSeparator | blueprints/episodes.py:338 | a string without the separator is one piece |
| Tags.TrimStart | blueprints/episodes.py:338 | drops exactly the leading whitespace |
| Tags.TrimEnd | blueprints/episodes.py:338 | drops exactly the trailing whitespace |
| Tags.Strip | blueprints/episodes.py:338 | the result is a slice of the input with only whitespace around it, and neither starts nor ends with whitespace |
| Tags.StripUnpadded | blueprints/episodes.py:338 | a string that neither starts nor ends with whitespace is unchanged by strip |
| Tags.ParsedTags | blueprints/episodes.py:337-339 | a non-empty tag field gives one tag per `#` plus one, and no tag contains `#` |
| Notifications.FanOut | utils/notifications.py:12-24 | one notification per selected follow row, in row order, addressed to the follower |
| Notifications.FanOutReachesEachFollowerOnce | utils/notifications.py:8-24 | each follower of the author gets exactly one notification, and anyone else gets none |
| Notifications.FanOutOfSelectedRows | utils/notifications.py:8-24 | the batch built from the selected rows is a fan-out to the author's followers |
| Notifications.NoFollowersNoNotifications | utils/notifications.py:8-26 | an author without followers causes no notification |
| Notifications.SelectFollowsOf | utils/notifications.py:8-10 | the selected rows are exactly the follow rows of the author, with no repeats |
| Notifications.NotifyNewPodcast | utils/notifications.py:7-26 | the notifications are appended and nothing else changes; each follower of the author gets one "new_podcast" notification carrying the podcast's id, name, summary and description |
| Notifications.NotifyNewEpisode | utils/notifications.py:29-51 | the author is found through the episode's podcast; each follower gets one "new_episode" notification carrying the episode's id, title and description and the podcast id; the notifications are appended and nothing else changes |
| Users.CreateUser | blueprints/users.py:21-73 | checks in order: missing field, e-mail, password, username taken, e-mail taken; one unverified user is added exactly when all pass, and nothing changes otherwise |
| Users.SearchUser | blueprints/users.py:108-167 | the answer is the user search over the stored users, and it is an exact match exactly when some user has that name |
| Users.UserType | blueprints/users.py:174-178 | "author" exactly when the user has at least one podcast, otherwise "user" |
| Users.UserTypeAfterAdd | blueprints/users.py:174-178 | adding a podcast makes its author an "author" and changes no other user's type |
| Users.UserTypeAfterRemove | blueprints/users.py:174-178 | removing a podcast turns its author back into a "user" exactly when it was their only podcast, and changes no other user's type |
| Users.GetUser | blueprints/users.py:170-189 | gives the user's name and type |
| Users.PostFollow | blueprints/users.py:219-240 | 400 without an id, 404 for an unknown user, 400 if already followed; otherwise exactly that pair is added |
| Users.DeleteFollow | blueprints/users.py:243-256 | 400 when the pair is absent; otherwise exactly that pair is removed |
| Users.FollowThenUnfollow | blueprints/users.py:219-256 | following and then unfollowing restores the follow set |
| Users.LevCarlSagan | tests/test_search.py:146-164 | "Carl Sagan" is at distance 2 from "Carlos Sagan" |
| Users.LevCarlosLatre | tests/test_search.py:146-164 | "Carlos Latre" is at distance 4 from "Carlos Sagan" |
| Users.LevAndreuBuenafuente | tests/test_search.py:146-164 | "Andreu Buenafuente" is at distance 12 or more from "Carlos Sagan" |
| Users.SearchCarlosSagan | tests/test_search.py:146-164 | "Carlos Sagan" returns "Carl Sagan" (83.33 %) and then "Carlos Latre" (66.67 %), and nothing else |
| Users.CarlosSaganHits | tests/test_search.py:146-164 | the fuzzy hits for "Carlos Sagan" are exactly those two rows with those scores |
| Users.CarlosSaganPercentages | tests/test_search.py:146-164 | scores 2/12 and 4/12 give 250/3 % and 200/3 % |
| Users.CarlosSaganScores | tests/test_search.py:146-164 | no stored name equals the query, two rows score 2/12 and 4/12, and the third is beyond the threshold |
| Users.SearchPirlo | tests/test_search.py:167-170 | "Pirlo" gives no good matches (404) |
| Users.SearchCarlSagan | tests/test_search.py:99-108 | "Carl Sagan" is an exact match, status 201 |
| Podcasts.PostPodcast | blueprints/podcasts.py:116-160 | 401 for a category not allowed, 400 for an empty name, 400 for a name the author already uses, 500 for a name another author uses; otherwise exactly one podcast is added, the author's followers are notified, and the caller's type becomes "author" |
| Podcasts.AddPodcastKeepsValid | models.py:48 | adding a podcast whose name is not used keeps names unique |
| Podcasts.Edited | blueprints/podcasts.py:190-216 | only the fields given non-empty are overwritten; the id and author stay |
| Podcasts.EditedIdentityAndIdempotent | blueprints/podcasts.py:209-216 | an edit with no fields changes nothing, and repeating an edit changes nothing more |
| Podcasts.EditPodcast | blueprints/podcasts.py:163-219 | 401 for a category not allowed, 404 for a missing podcast or a caller who is not its author, 400 for a name the author already uses, 500 for another author's name; otherwise only that podcast is updated |
| Podcasts.EditPodcastKeepsValid | models.py:48 | renaming to a free name keeps podcast names unique |
| Podcasts.DeletePodcast | blueprints/podcasts.py:222-242 | 404 for a missing podcast or a caller who is not its author; otherwise exactly that podcast is removed, and the caller's type becomes "user" exactly when it was their only podcast |
| Podcasts.SearchPodcast | blueprints/podcasts.py:245-323 | the answer is the podcast search over the stored podcasts, and it is an exact match exactly when some podcast has that name |
| Podcasts.PostFavorite | blueprints/podcasts.py:476-503 | 400 without an id, 404 for an unknown podcast, 400 if already a favorite; otherwise exactly that pair is added |
| Podcasts.DeleteFavorite | blueprints/podcasts.py:506-522 | 404 when the pair is absent; otherwise exactly that pair is removed |
| Podcasts.FavoritePodcasts | blueprints/podcasts.py:443-473 | lists only stored podcasts the user has marked as favorite |
| Podcasts.FavoritesListFollowsUpdates | blueprints/podcasts.py:443-522 | after adding a favorite the podcast is listed, and after removing it the podcast is not |
| Podcasts.ViewsOnPlay | blueprints/podcasts.py:389-396 | the first playback of an episode adds one view to its podcast; later position updates add none |
| Podcasts.InsertByViews | blueprints/podcasts.py:415 | inserting into a list ordered by views keeps it ordered and adds exactly that entry |
| Podcasts.SortByViews | blueprints/podcasts.py:415 | the result is in non-increasing view order and is a permutation of the input |
| Podcasts.Viewed | blueprints/podcasts.py:389-414 | lists exactly the podcasts with at least one view, each with its view count |
| Podcasts.Populars | blueprints/podcasts.py:381-440 | at most 10 podcasts, each with its views and at least one view, in non-increasing view order; drawn from the viewed podcasts with no entry repeated, so no podcast appears twice when the table repeats no identifier; a viewed podcast left out means the list is full and it has no more views than the last entry |
| Podcasts.ViewedOnce | blueprints/podcasts.py:389-396 | grouping by podcast identifier lists each viewed podcast of the table once |
| Podcasts.InsertKeepsDistinct | blueprints/podcasts.py:415 | inserting a podcast not yet ranked keeps every podcast ranked once |
| Podcasts.SortKeepsDistinct | blueprints/podcasts.py:415 | ordering by views ranks no podcast twice when the input does not |
| Podcasts.SearchProgrammingForDummies | tests/test_search.py:80-96 | "Programming for dummies" is an exact match, status 201 |
| Podcasts.SearchProgramin | tests/test_search.py:111-143 | "Programin for dumies" returns "Programming for dummies" first with 2000/23 % (86.96), then "Programming for fun" with at least 65 % |
| Podcasts.ProgramminScores | tests/test_search.py:111-143 | no stored name equals the query; the first row scores 3/23; the second row's longer length is 20 and its distance is at most 7 (an upper bound only) |
| Podcasts.LevDummies | tests/test_search.py:111-143 | the plain forms of "Programming for dummies" and "Programin for dumies" are at distance 3 |
| Podcasts.LevFun | tests/test_search.py:111-143 | the plain forms of "Programming for fun" and "Programin for dumies" are at distance 7 or less |
| Episodes.InitialTags | blueprints/episodes.py:337-339 | a non-empty tag field gives one tag per `#` plus one; an absent or empty field gives no tags |
| Episodes.PostEpisode | blueprints/episodes.py:303-346 | 404 for an unknown podcast, 400 for an empty title, 400 for a title already used in that podcast; otherwise exactly one episode is added and the author's followers are notified; no author check is made |
| Episodes.AddEpisodeKeepsValid | blueprints/episodes.py:320-332 | adding an episode whose title is free in its podcast keeps titles unique per podcast |
| Episodes.EditedEpisode | blueprints/episodes.py:471-496 | only the fields given non-empty are overwritten; given tags are re-parsed |
| Episodes.EditEpisode | blueprints/episodes.py:445-499 | 404 for a missing episode or a caller who is not the author, 400 for a title already used in the podcast; otherwise only that episode is updated |
| Episodes.EditEpisodeKeepsValid | blueprints/episodes.py:471-488 | renaming to a title free in the podcast keeps titles unique per podcast |
| Episodes.DeleteEpisode | blueprints/episodes.py:418-442 | 404 for a missing episode or a caller who is not the author; otherwise exactly that episode is removed |
| Episodes.PositionOf | blueprints/episodes.py:406-415 | the stored seconds for the pair, or 0 when there are none |
| Episodes.UpdateCurrentSec | blueprints/episodes.py:349-392 | 400 without a position, 404 for an unknown episode; otherwise the pair's position is overwritten or inserted |
| Episodes.GetCurrentSec | blueprints/episodes.py:395-415 | 404 for an unknown episode; otherwise the stored seconds, or 0 |
| Episodes.SavedPositionIsRead | blueprints/episodes.py:349-415 | a saved position is read back, and other pairs are unaffected |
| Episodes.PostComment | blueprints/episodes.py:210-230 | 404 for an unknown episode, 400 for empty content; otherwise one comment by the caller is added |
| Episodes.PostReply | blueprints/episodes.py:233-253 | 404 for an unknown comment, 400 for empty content; otherwise one reply by the caller is added |
| Episodes.DeleteComment | blueprints/episodes.py:256-278 | 404 for an unknown comment, 403 when the caller did not write it; otherwise exactly that comment is removed |
| Episodes.DeleteReply | blueprints/episodes.py:281-300 | 404 for an unknown reply, 403 when the caller did not write it; otherwise exactly that reply is removed |
| Episodes.PostStreamLater | blueprints/episodes.py:546-573 | 400 without an id, 404 for an unknown episode, 400 if already saved; otherwise exactly that pair is added |
| Episodes.DeleteStreamLater | blueprints/episodes.py:576-592 | 404 when the pair is absent; otherwise exactly that pair is removed |
| Episodes.IsLiked | blueprints/episodes.py:525-543 | reports the episode as saved exactly when the pair is present |
| Episodes.StreamLaterRoundTrip | blueprints/episodes.py:546-592 | a saved pair is present, a removed pair is absent, and saving then removing restores the list |
| Episodes.SingleTag | blueprints/episodes.py:337-339 | a field without `#` and without surrounding whitespace is one tag |
| Episodes.ChillTag | tests/test_edit_delete_podcasts_episodes.py:147-148 | "chill" gives the tags ["chill"], on creation and on edit |

## Left out

- De-accenting (`unidecode`) is not modelled. The plain form only lower-cases ASCII letters, and accented characters are left as they are.
- Regular-expression corner cases are not modelled: `\w` is ASCII letters, digits and underscore and `\d` is the ASCII digits `0`-`9`, whereas Python 3 matches any Unicode word character and any Unicode decimal digit (so a password such as "Abcdef\u0661" is accepted by the source and rejected here), and `$` does not match before a trailing newline.
- Floating-point division and `round(..., 2)` are not modelled. Percentages are exact rationals, so 86.96 appears as 2000/23.
- Podcasts.ProgramminScores: bounds the distance of "Programming for fun" from above only (at most 7). The expected 65.00 needs it to be exactly 7, and the lower bound was not proved: it needs the full table of the recurrence, which is too costly to evaluate on these strings.
- Podcasts.LevFun: proves only the upper bound 7, for the same reason.
- Podcasts.SearchProgramin: is weaker than the expected output. It proves "Programming for fun" is second with at least 65 %, not exactly 65.00, and it does not prove that "Cooking master" is excluded. The exact distance bounds are too costly to prove on these strings.
- `ON DELETE CASCADE` is not modelled. An episode whose podcast is gone can remain, and editing or deleting it answers 500 (`BrokenReference`), as the source's attribute access on a missing row would.
- JWT login, logout, cookies and the protected test route (blueprints/users.py:76-105) are left out. The caller identifier is an argument.
- Password hashing (werkzeug) is left out: the hash is an argument of `Users.CreateUser`.
- The allowed categories (constants module, not part of this model) are the `categories` argument.
- Cover images, audio files and their serving endpoints are left out: they are binary blobs and file I/O.
- Listing endpoints that only read and shape JSON are left out: `get_podcasts`, `get_podcast`, `get_podcasts_created_by_user`, `get_podcasts_of_category`, `get_categories`, `get_episode`, `get_episodes_of_podcast`, comments and replies listings, `get_follows`, the stream-later list. They are projections with no guards. `Podcasts.FavoritePodcasts` stands for the favorites listing.
- `edit_bio` (blueprints/users.py:194-203) is left out: the `bio` field is not declared in models.py.
- The race between a uniqueness check and the insert is left out: handlers run one at a time.
- A required JSON field that is absent raises an error in the source. The model takes the required text fields as present strings.
- Podcasts.PostPodcast: takes `name`, `summary` and `description` as strings. In the source they come from `request.form.get` and are `None` when absent; `None` passes the empty-name check (blueprints/podcasts.py:130) and the commit then fails. That failure is not modelled.
- Episodes.PostEpisode: takes `title` and `description` as strings. When absent they are `None`, which passes the empty-title check (blueprints/episodes.py:317), and the commit then fails. That failure is not modelled.
- Podcasts.PostPodcast: does not model the cover upload, which is read before any check (blueprints/podcasts.py:121). A request without a cover fails there, before the 401 and 400 answers.
- Episodes.PostEpisode: does not model the audio upload, which is read after the 404 check (blueprints/episodes.py:312). A request without audio fails there, before the 400 answers.
- Episodes.UpdateCurrentSec: takes the position as an optional integer. The source reads it as a form string (blueprints/episodes.py:354), so an empty or non-numeric value passes the presence check and fails when written to the integer column. That failure is not modelled.
- Users.GetUser: does not return the `bio` (blueprints/users.py:184), because the `bio` field is not declared in models.py.
- Users.GetUser: a missing user answers 500 (`BrokenReference`), standing for the exception the source raises on the missing row.
- The populars SQL joins podcasts with their authors. Every podcast is assumed to have a stored author.
- The order among podcasts with equal views in the populars list is not specified.
- The `created_at` timestamps and the listing order they give are left out.
- The stored tag format of an episode is not part of this model. Tags are kept as a list of strings.
- The fields of `Follow`, `Reply` and `Notification` are not declared in models.py. They are inferred from how the handlers use them.
- The `sections` table is declared, keyed by title and episode, but no modelled handler changes it.
- Server-generated UUIDs are natural-number identifiers chosen fresh for each table.
