/** Levenshtein distance, which the two search handlers obtain from the
    `Levenshtein` C extension (podcasts.py:7, users.py:11). It is defined here
    by its textbook recurrence and characterised by the lemmas below. */
module EditDistance {

  function Min3(x: nat, y: nat, z: nat): (m: nat)
    ensures m <= x && m <= y && m <= z
    ensures m == x || m == y || m == z
  {
    if x <= y && x <= z then x else if y <= z then y else z
  }

  function Max(x: nat, y: nat): (m: nat)
    ensures m >= x && m >= y && (m == x || m == y)
  {
    if x >= y then x else y
  }

  /** The least number of single-character insertions, deletions and
      substitutions that turn `a` into `b`. */
  function Lev(a: string, b: string): nat
    decreases |a| + |b|
  {
    if a == [] then |b|
    else if b == [] then |a|
    else Min3(Lev(a[1..], b) + 1,
              Lev(a, b[1..]) + 1,
              Lev(a[1..], b[1..]) + (if a[0] == b[0] then 0 else 1))
  }

  /** The distance never exceeds the longer length, so a normalised distance
      `Lev(a, b) / max(|a|, |b|)` lies in [0, 1]. */
  lemma {:induction false} LevAtMostLonger(a: string, b: string)
    ensures Lev(a, b) <= Max(|a|, |b|)
    decreases |a| + |b|
  {
    if a != [] && b != [] {
      LevAtMostLonger(a[1..], b[1..]);
    }
  }

  /** Each edit changes the length by at most one. */
  lemma {:induction false} LevAtLeastLengthGap(a: string, b: string)
    ensures Lev(a, b) >= |a| - |b| && Lev(a, b) >= |b| - |a|
    decreases |a| + |b|
  {
    if a != [] && b != [] {
      LevAtLeastLengthGap(a[1..], b);
      LevAtLeastLengthGap(a, b[1..]);
      LevAtLeastLengthGap(a[1..], b[1..]);
    }
  }

  lemma {:induction false} LevSelf(a: string)
    ensures Lev(a, a) == 0
    decreases |a|
  {
    if a != [] {
      LevSelf(a[1..]);
    }
  }

  /** Distance zero means equal strings, and only that. */
  lemma {:induction false} LevZeroIff(a: string, b: string)
    ensures Lev(a, b) == 0 <==> a == b
    decreases |a| + |b|
  {
    if a == b {
      LevSelf(a);
    } else if a != [] && b != [] {
      assert a == [a[0]] + a[1..] && b == [b[0]] + b[1..];
      LevZeroIff(a[1..], b[1..]);
    }
  }

  lemma {:induction false} LevSymmetric(a: string, b: string)
    ensures Lev(a, b) == Lev(b, a)
    decreases |a| + |b|
  {
    if a != [] && b != [] {
      LevSymmetric(a[1..], b);
      LevSymmetric(a, b[1..]);
      LevSymmetric(a[1..], b[1..]);
    }
  }

  /** Number of characters of `s` that belong to `cs`. */
  function CountIn(s: string, cs: set<char>): (n: nat)
    ensures n <= |s|
  {
    if s == [] then 0 else (if s[0] in cs then 1 else 0) + CountIn(s[1..], cs)
  }

  /** Counting is additive over concatenation, so a long name can be
      counted piece by piece. */
  lemma {:induction false} CountInAppend(a: string, b: string, cs: set<char>)
    ensures CountIn(a + b, cs) == CountIn(a, cs) + CountIn(b, cs)
  {
    if a != [] {
      assert (a + b)[0] == a[0] && (a + b)[1..] == a[1..] + b;
      CountInAppend(a[1..], b, cs);
    } else {
      assert a + b == b;
    }
  }

  /** The count of a string cut in three pieces. */
  lemma CountInPieces(s: string, i: nat, j: nat, cs: set<char>)
    requires i <= j <= |s|
    ensures CountIn(s, cs) == CountIn(s[..i], cs) + CountIn(s[i..j], cs) + CountIn(s[j..], cs)
  {
    assert s == s[..i] + s[i..j] + s[j..];
    CountInAppend(s[..i] + s[i..j], s[j..], cs);
    CountInAppend(s[..i], s[i..j], cs);
  }

  /** A lower bound that can be read off two strings: each edit changes the
      number of characters drawn from any fixed set by at most one. */
  lemma {:induction false} LevAtLeastCountGap(a: string, b: string, cs: set<char>)
    ensures Lev(a, b) >= CountIn(a, cs) - CountIn(b, cs)
    ensures Lev(a, b) >= CountIn(b, cs) - CountIn(a, cs)
    decreases |a| + |b|
  {
    if a == [] {
      assert CountIn(a, cs) == 0;
    } else if b == [] {
      assert CountIn(b, cs) == 0;
    } else {
      LevAtLeastCountGap(a[1..], b, cs);
      LevAtLeastCountGap(a, b[1..], cs);
      LevAtLeastCountGap(a[1..], b[1..], cs);
    }
  }

  // Upper bounds obtained by exhibiting edits.

  /** A common prefix costs nothing. */
  lemma {:induction false} LevCommonPrefix(p: string, a: string, b: string)
    ensures Lev(p + a, p + b) <= Lev(a, b)
    decreases |p|
  {
    if p != [] {
      var x, y := p + a, p + b;
      assert x[0] == y[0] && x[1..] == p[1..] + a && y[1..] == p[1..] + b;
      assert Lev(x, y) <= Lev(x[1..], y[1..]);
      LevCommonPrefix(p[1..], a, b);
      assert Lev(x[1..], y[1..]) <= Lev(a, b);
    } else {
      assert p + a == a && p + b == b;
    }
  }

  /** Positions at which two strings of the same length differ. */
  function Mismatches(a: string, b: string): (n: nat)
    requires |a| == |b|
    ensures n <= |a|
  {
    if a == [] then 0 else (if a[0] == b[0] then 0 else 1) + Mismatches(a[1..], b[1..])
  }

  /** Substituting every differing character is one way to edit. */
  lemma {:induction false} LevAtMostMismatches(a: string, b: string)
    requires |a| == |b|
    ensures Lev(a, b) <= Mismatches(a, b)
  {
    if a != [] {
      LevAtMostMismatches(a[1..], b[1..]);
    }
  }

  /** Deleting the first character of the left string costs one. */
  lemma LevDeleteFirst(c: char, a: string, b: string)
    ensures Lev([c] + a, b) <= Lev(a, b) + 1
  {
    assert ([c] + a)[1..] == a;
  }

  /** Substituting the first character costs at most one. */
  lemma LevReplaceFirst(c: char, d: char, a: string, b: string)
    ensures Lev([c] + a, [d] + b) <= Lev(a, b) + 1
  {
    assert ([c] + a)[1..] == a && ([d] + b)[1..] == b;
  }

  /** Inserting a character in front of the left string costs one. */
  lemma LevInsertFirst(c: char, a: string, b: string)
    ensures Lev(a, [c] + b) <= Lev(a, b) + 1
  {
    assert ([c] + b)[1..] == b;
  }

  /** Deleting one character after a common prefix costs one. */
  lemma LevDeleteInside(p: string, c: char, a: string, b: string)
    ensures Lev(p + [c] + a, p + b) <= Lev(a, b) + 1
  {
    LevCommonPrefix(p, [c] + a, b);
    LevDeleteFirst(c, a, b);
    assert p + [c] + a == p + ([c] + a);
  }

  /** Substituting one character after a common prefix costs one. */
  lemma LevReplaceInside(p: string, c: char, d: char, a: string, b: string)
    ensures Lev(p + [c] + a, p + [d] + b) <= Lev(a, b) + 1
  {
    LevCommonPrefix(p, [c] + a, [d] + b);
    LevReplaceFirst(c, d, a, b);
    assert p + [c] + a == p + ([c] + a) && p + [d] + b == p + ([d] + b);
  }
}
