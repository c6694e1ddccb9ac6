/** Approximate name search, shared by the podcast search
    (podcasts.py:245-323) and the user search (users.py:108-167): an exact
    name wins alone; otherwise every stored name whose normalised edit
    distance to the query is within a threshold is returned, in the order
    the database lists the rows. */
module Search {
  import opened Wrappers
  import opened Text
  import opened EditDistance

  /** How a handler compares names: whether both sides are first reduced to
      their plain form, and the largest accepted normalised distance, as a
      percentage. */
  datatype Policy = Policy(plain: bool, thresholdPct: nat)

  /** Podcast names: plain forms, `thr = 0.45`. */
  const PodcastPolicy := Policy(true, 45)
  /** Usernames: compared as written, `thr = 0.4`. */
  const UserPolicy := Policy(false, 40)

  function Normalize(s: string, p: Policy): string {
    if p.plain then Plain(s) else s
  }

  /** A normalised distance `dist / maxLen`, kept as a fraction. */
  datatype Score = Score(dist: nat, maxLen: nat)

  /** The score of a stored name against the query:
      `lev(name, query) / max(len(name), len(query))` on normalised forms. */
  function ScoreOf(name: string, query: string, p: Policy): (s: Score)
    ensures s.dist <= s.maxLen
    ensures s.maxLen == Max(|Normalize(name, p)|, |Normalize(query, p)|)
    ensures s.dist == Lev(Normalize(name, p), Normalize(query, p))
  {
    var a, b := Normalize(name, p), Normalize(query, p);
    LevAtMostLonger(a, b);
    Score(Lev(a, b), Max(|a|, |b|))
  }

  /** `d <= thr`, stated without division: `dist / maxLen <= pct / 100`. */
  predicate Accepts(s: Score, p: Policy) {
    100 * s.dist <= p.thresholdPct * s.maxLen
  }

  predicate Accepted(name: string, query: string, p: Policy) {
    Accepts(ScoreOf(name, query, p), p)
  }

  /** `match_percentatge`, `(1 - d) * 100`, before rounding to two decimals. */
  function Percentage(s: Score): real
    requires s.maxLen > 0
  {
    100.0 * (s.maxLen - s.dist) as real / s.maxLen as real
  }

  datatype Hit<T> = Hit(row: T, score: Score)

  /** What a search answers: the exact match alone (status 201, 100 %), the
      near matches (status 200), or "No good matches found" (status 404). */
  datatype Outcome<T> = Exact(row: T) | Partial(hits: seq<Hit<T>>) | NoGoodMatches
  {
    function Code(): nat {
      match this
      case Exact(_) => 201
      case Partial(_) => 200
      case NoGoodMatches => 404
    }
  }

  /** `filter_by(name=query).first()`: the first row carrying exactly that name. */
  function FirstNamed<T>(rows: seq<T>, nameOf: T -> string, name: string): (r: Option<T>)
    ensures r.Some? <==> exists i :: 0 <= i < |rows| && nameOf(rows[i]) == name
    ensures r.Some? ==> r.value in rows && nameOf(r.value) == name
  {
    if rows == [] then None
    else if nameOf(rows[0]) == name then Some(rows[0])
    else FirstNamed(rows[1..], nameOf, name)
  }

  /** The rows whose names are within the threshold, in row order, each with
      its score. */
  function FuzzyHits<T>(rows: seq<T>, nameOf: T -> string, query: string, p: Policy): (hits: seq<Hit<T>>)
    ensures |hits| <= |rows|
    ensures forall h :: h in hits ==>
              h.row in rows && Accepted(nameOf(h.row), query, p) && h.score == ScoreOf(nameOf(h.row), query, p)
    ensures forall i :: 0 <= i < |rows| && Accepted(nameOf(rows[i]), query, p) ==>
              Hit(rows[i], ScoreOf(nameOf(rows[i]), query, p)) in hits
  {
    if rows == [] then []
    else
      var rest := FuzzyHits(rows[1..], nameOf, query, p);
      var s := ScoreOf(nameOf(rows[0]), query, p);
      assert forall i :: 1 <= i < |rows| ==> rows[i] == rows[1..][i - 1];
      if Accepts(s, p) then [Hit(rows[0], s)] + rest else rest
  }

  /** The whole search, as the handlers decide it. */
  function Matches<T>(rows: seq<T>, nameOf: T -> string, query: string, p: Policy): Outcome<T> {
    match FirstNamed(rows, nameOf, query)
    case Some(row) => Exact(row)
    case None =>
      var hits := FuzzyHits(rows, nameOf, query, p);
      if hits == [] then NoGoodMatches else Partial(hits)
  }

  /** `Podcast.name.in_(names_above_thr)`: the rows whose names were kept,
      each scored by the dictionary. */
  function HitsAmong<T>(rows: seq<T>, nameOf: T -> string, above: map<string, Score>): seq<Hit<T>> {
    if rows == [] then []
    else
      var rest := HitsAmong(rows[1..], nameOf, above);
      var name := nameOf(rows[0]);
      if name in above then [Hit(rows[0], above[name])] + rest else rest
  }

  /** The search handler: the exact-match query, then the loop that fills
      `names_above_thr`, then the query for the rows whose names it kept. */
  method FindMatches<T>(rows: seq<T>, nameOf: T -> string, query: string, p: Policy) returns (r: Outcome<T>)
    ensures r == Matches(rows, nameOf, query, p)
  {
    var exact := FirstNamed(rows, nameOf, query);
    if exact.Some? {
      return Exact(exact.value);
    }
    var above: map<string, Score> := map[];
    for i := 0 to |rows|
      invariant forall n :: n in above <==> exists j :: 0 <= j < i && nameOf(rows[j]) == n && Accepted(n, query, p)
      invariant forall n :: n in above ==> above[n] == ScoreOf(n, query, p)
    {
      var name := nameOf(rows[i]);
      var s := ScoreOf(name, query, p);
      if Accepts(s, p) {
        above := above[name := s];
      }
    }
    KeptNamesGiveFuzzyHits(rows, nameOf, query, p, above);
    if above == map[] {
      r := NoGoodMatches;
    } else {
      r := Partial(HitsAmong(rows, nameOf, above));
    }
  }

  /** What the dictionary of kept names determines, once it has seen every row. */
  lemma KeptNamesGiveFuzzyHits<T>(
    rows: seq<T>, nameOf: T -> string, query: string, p: Policy, above: map<string, Score>)
    requires forall n :: n in above <==> exists j :: 0 <= j < |rows| && nameOf(rows[j]) == n && Accepted(n, query, p)
    requires forall n :: n in above ==> above[n] == ScoreOf(n, query, p)
    ensures above == map[] <==> FuzzyHits(rows, nameOf, query, p) == []
    ensures HitsAmong(rows, nameOf, above) == FuzzyHits(rows, nameOf, query, p)
  {
    var hits := FuzzyHits(rows, nameOf, query, p);
    if above != map[] {
      var n :| n in above;
      var j :| 0 <= j < |rows| && nameOf(rows[j]) == n && Accepted(n, query, p);
      assert Hit(rows[j], ScoreOf(n, query, p)) in hits;
    } else {
      assert forall k :: 0 <= k < |hits| ==> hits[k] in hits && nameOf(hits[k].row) in above;
    }
    forall x | x in rows
      ensures nameOf(x) in above <==> Accepted(nameOf(x), query, p)
    {
      var j :| 0 <= j < |rows| && rows[j] == x;
    }
    HitsAmongKept(rows, nameOf, query, p, above);
  }

  lemma {:induction false} HitsAmongKept<T>(
    rows: seq<T>, nameOf: T -> string, query: string, p: Policy, above: map<string, Score>)
    requires forall x :: x in rows ==> (nameOf(x) in above <==> Accepted(nameOf(x), query, p))
    requires forall n :: n in above ==> above[n] == ScoreOf(n, query, p)
    ensures HitsAmong(rows, nameOf, above) == FuzzyHits(rows, nameOf, query, p)
  {
    if rows != [] {
      assert forall x :: x in rows[1..] ==> x in rows;
      HitsAmongKept(rows[1..], nameOf, query, p, above);
    }
  }

  // Properties of the search.

  /** An exact name wins: the answer is that row alone, even when other rows
      would also be near matches. With unique names it is the row asked for. */
  lemma ExactMatchWins<T>(rows: seq<T>, nameOf: T -> string, query: string, p: Policy, i: nat)
    requires i < |rows| && nameOf(rows[i]) == query
    requires forall j, k :: 0 <= j < |rows| && 0 <= k < |rows| && nameOf(rows[j]) == nameOf(rows[k]) ==> rows[j] == rows[k]
    ensures Matches(rows, nameOf, query, p) == Exact(rows[i])
    ensures Matches(rows, nameOf, query, p).Code() == 201
  {
    var r := FirstNamed(rows, nameOf, query);
    var k :| 0 <= k < |rows| && rows[k] == r.value;
  }

  /** Without an exact name, a row is returned exactly when its normalised
      distance is within the threshold, and it carries that distance. */
  lemma NearMatchIff<T>(rows: seq<T>, nameOf: T -> string, query: string, p: Policy, x: T)
    requires forall j :: 0 <= j < |rows| ==> nameOf(rows[j]) != query
    requires x in rows
    ensures Accepted(nameOf(x), query, p) ==>
              Matches(rows, nameOf, query, p).Partial? &&
              Hit(x, ScoreOf(nameOf(x), query, p)) in Matches(rows, nameOf, query, p).hits
    ensures !Accepted(nameOf(x), query, p) ==>
              Matches(rows, nameOf, query, p).NoGoodMatches? ||
              forall h :: h in Matches(rows, nameOf, query, p).hits ==> h.row != x
  {
    var j :| 0 <= j < |rows| && rows[j] == x;
  }

  /** "No good matches found" exactly when no name is equal or near. */
  lemma NoGoodMatchesIff<T>(rows: seq<T>, nameOf: T -> string, query: string, p: Policy)
    ensures Matches(rows, nameOf, query, p) == NoGoodMatches <==>
            forall j :: 0 <= j < |rows| ==> nameOf(rows[j]) != query && !Accepted(nameOf(rows[j]), query, p)
    ensures Matches(rows, nameOf, query, p).Code() == 404 <==> Matches(rows, nameOf, query, p) == NoGoodMatches
  {
    var hits := FuzzyHits(rows, nameOf, query, p);
    if hits != [] {
      assert hits[0] in hits;
      var j :| 0 <= j < |rows| && rows[j] == hits[0].row;
    }
  }

  /** The near matches come back in row order, not sorted by score: the
      search keeps or drops each row on its own. */
  lemma {:induction false} FuzzyHitsKeepRowOrder<T>(xs: seq<T>, ys: seq<T>, nameOf: T -> string, query: string, p: Policy)
    ensures FuzzyHits(xs + ys, nameOf, query, p) == FuzzyHits(xs, nameOf, query, p) + FuzzyHits(ys, nameOf, query, p)
  {
    if xs == [] {
      assert xs + ys == ys;
    } else {
      assert (xs + ys)[0] == xs[0] && (xs + ys)[1..] == xs[1..] + ys;
      FuzzyHitsKeepRowOrder(xs[1..], ys, nameOf, query, p);
    }
  }

  /** Every near match scores between `100 - thr` and 100 percent: the
      distance is at most the threshold share of the longer name. */
  lemma PercentageWithinBounds(s: Score, p: Policy)
    requires s.maxLen > 0 && s.dist <= s.maxLen && Accepts(s, p) && p.thresholdPct <= 100
    ensures (100 - p.thresholdPct) as real <= Percentage(s) <= 100.0
  {
    var m, d := s.maxLen as real, s.dist as real;
    assert 100.0 * d <= p.thresholdPct as real * m;
    QuotientBetween(100.0 * (m - d), m, (100 - p.thresholdPct) as real, 100.0);
  }

  /** `lo <= x / m <= hi` from the same bounds on `x` scaled by `m`. */
  lemma QuotientBetween(x: real, m: real, lo: real, hi: real)
    requires m > 0.0 && lo * m <= x <= hi * m
    ensures lo <= x / m <= hi
  {
    assert (lo * m) / m == lo && (hi * m) / m == hi;
    assert (lo * m) / m <= x / m <= (hi * m) / m;
  }

  lemma NearMatchesScoreWithinBounds<T>(rows: seq<T>, nameOf: T -> string, query: string, p: Policy, h: Hit<T>)
    requires query != [] && p.thresholdPct <= 100
    requires Matches(rows, nameOf, query, p).Partial? && h in Matches(rows, nameOf, query, p).hits
    ensures h.score.maxLen > 0
    ensures (100 - p.thresholdPct) as real <= Percentage(h.score) <= 100.0
  {
    PercentageWithinBounds(h.score, p);
  }

  /** For podcasts: a name that differs from the query only in letter case is
      at distance 0, so it is a near match at 100 percent. */
  lemma CaseOnlyDifferenceIsFullMatch(name: string, query: string)
    requires query != []
    requires Plain(name) == Plain(query)
    ensures Accepted(name, query, PodcastPolicy)
    ensures ScoreOf(name, query, PodcastPolicy).dist == 0
    ensures Percentage(ScoreOf(name, query, PodcastPolicy)) == 100.0
  {
    LevSelf(Plain(query));
    ZeroDistanceIsFullPercentage(ScoreOf(name, query, PodcastPolicy));
  }

  lemma ZeroDistanceIsFullPercentage(s: Score)
    requires s.dist == 0 && s.maxLen > 0
    ensures Percentage(s) == 100.0
  {
    var m := s.maxLen as real;
    assert Percentage(s) == 100.0 * m / m;
  }
}
