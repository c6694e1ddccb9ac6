/** The e-mail and password checks of user registration (users.py:35-42),
    each given twice: as the regular expression reads, and as the scan over
    character classes that it amounts to. */
module Validators {
  import opened Wrappers
  import opened Text

  /** A character of the class `[\w\.-]`. */
  predicate IsEmailChar(c: char) { IsWordChar(c) || c == '.' || c == '-' }

  function AllWordChars(s: string): (b: bool)
    ensures b <==> forall k :: 0 <= k < |s| ==> IsWordChar(s[k])
  {
    s == [] || (IsWordChar(s[0]) && AllWordChars(s[1..]))
  }

  function AllEmailChars(s: string): (b: bool)
    ensures b <==> forall k :: 0 <= k < |s| ==> IsEmailChar(s[k])
  {
    s == [] || (IsEmailChar(s[0]) && AllEmailChars(s[1..]))
  }

  /** The position of the first `c` in `s`. */
  function FirstIndex(s: string, c: char): (r: Option<nat>)
    ensures r.None? <==> forall k :: 0 <= k < |s| ==> s[k] != c
    ensures r.Some? ==> r.value < |s| && s[r.value] == c && forall k :: 0 <= k < r.value ==> s[k] != c
  {
    if s == [] then None
    else if s[0] == c then Some(0)
    else match FirstIndex(s[1..], c)
      case None => None
      case Some(i) => Some(i + 1)
  }

  /** The position of the last `c` in `s`. */
  function LastIndex(s: string, c: char): (r: Option<nat>)
    ensures r.None? <==> forall k :: 0 <= k < |s| ==> s[k] != c
    ensures r.Some? ==> r.value < |s| && s[r.value] == c && forall k :: r.value < k < |s| ==> s[k] != c
  {
    if s == [] then None
    else if s[|s| - 1] == c then Some(|s| - 1)
    else LastIndex(s[..|s| - 1], c)
  }

  /** `^[\w\.-]+@[\w\.-]+\.\w+$` as the regular expression reads: the string
      splits into a local part, "@", a host, ".", and a top-level part, none
      of them empty. */
  ghost predicate EmailPatternMatches(s: string) {
    exists i, j :: 0 < i && i + 1 < j && j + 1 < |s| &&
      s[i] == '@' && s[j] == '.' &&
      AllEmailChars(s[..i]) && AllEmailChars(s[i + 1..j]) && AllWordChars(s[j + 1..])
  }

  /** The same check as a scan: the local part ends at the first "@"; after
      it, everything is in `[\w\.-]`, and the last "." has a non-empty host
      before it and only word characters, at least one, after it. */
  function ValidEmail(s: string): bool {
    match FirstIndex(s, '@')
    case None => false
    case Some(at) =>
      var host := s[at + 1..];
      at > 0 && AllEmailChars(s[..at]) && AllEmailChars(host) &&
      match LastIndex(host, '.')
      case None => false
      case Some(dot) => 0 < dot < |host| - 1 && AllWordChars(host[dot + 1..])
  }

  lemma ValidEmailMatchesPattern(s: string)
    ensures ValidEmail(s) <==> EmailPatternMatches(s)
  {
    if EmailPatternMatches(s) {
      var i, j :| 0 < i && i + 1 < j && j + 1 < |s| &&
        s[i] == '@' && s[j] == '.' &&
        AllEmailChars(s[..i]) && AllEmailChars(s[i + 1..j]) && AllWordChars(s[j + 1..]);
      SplitIsValid(s, i, j);
    }
    if ValidEmail(s) {
      ValidHasSplit(s);
    }
  }

  lemma SplitIsValid(s: string, i: nat, j: nat)
    requires 0 < i && i + 1 < j && j + 1 < |s| && s[i] == '@' && s[j] == '.'
    requires AllEmailChars(s[..i]) && AllEmailChars(s[i + 1..j]) && AllWordChars(s[j + 1..])
    ensures ValidEmail(s)
  {
    var local, host, top := s[..i], s[i + 1..], s[j + 1..];
    var dot := j - i - 1;
    forall k | 0 <= k < i ensures s[k] != '@' {
      assert s[k] == local[k];
    }
    FirstIndexIs(s, '@', i);
    forall k | dot < k < |host| ensures host[k] != '.' {
      assert host[k] == top[k - dot - 1];
    }
    LastIndexIs(host, '.', dot);
    forall k | 0 <= k < |host| ensures IsEmailChar(host[k]) {
      if k < dot {
        assert host[k] == s[i + 1..j][k];
      } else if k > dot {
        assert host[k] == top[k - dot - 1];
      }
    }
    assert host[dot + 1..] == top;
  }

  lemma FirstIndexIs(s: string, c: char, i: nat)
    requires i < |s| && s[i] == c && forall k :: 0 <= k < i ==> s[k] != c
    ensures FirstIndex(s, c) == Some(i)
  {
  }

  lemma LastIndexIs(s: string, c: char, i: nat)
    requires i < |s| && s[i] == c && forall k :: i < k < |s| ==> s[k] != c
    ensures LastIndex(s, c) == Some(i)
  {
  }

  lemma ValidHasSplit(s: string)
    requires ValidEmail(s)
    ensures EmailPatternMatches(s)
  {
    var at := FirstIndex(s, '@').value;
    var host := s[at + 1..];
    var dot := LastIndex(host, '.').value;
    var j := at + 1 + dot;
    var middle, top := s[at + 1..j], s[j + 1..];
    assert middle == host[..dot] && top == host[dot + 1..];
    forall k | 0 <= k < |middle| ensures IsEmailChar(middle[k]) {
      assert middle[k] == host[k];
    }
    assert 0 < at && at + 1 < j && j + 1 < |s| && s[at] == '@' && s[j] == '.';
    assert AllEmailChars(s[..at]) && AllEmailChars(middle) && AllWordChars(top);
  }

  function HasChar(s: string, c: char): (b: bool)
    ensures b <==> exists k :: 0 <= k < |s| && s[k] == c
  {
    s != [] && (s[0] == c || HasChar(s[1..], c))
  }

  function HasLower(s: string): (b: bool)
    ensures b <==> exists k :: 0 <= k < |s| && IsLower(s[k])
  {
    s != [] && (IsLower(s[0]) || HasLower(s[1..]))
  }

  function HasUpper(s: string): (b: bool)
    ensures b <==> exists k :: 0 <= k < |s| && IsUpper(s[k])
  {
    s != [] && (IsUpper(s[0]) || HasUpper(s[1..]))
  }

  function HasDigit(s: string): (b: bool)
    ensures b <==> exists k :: 0 <= k < |s| && IsDigit(s[k])
  {
    s != [] && (IsDigit(s[0]) || HasDigit(s[1..]))
  }

  /** `.` matches any character but a line break. */
  predicate NoLineBreak(s: string) {
    forall k :: 0 <= k < |s| ==> s[k] != '\n'
  }

  /** `^(?=.*[a-z])(?=.*[A-Z])(?=.*\d).{6,}$` as the regular expression reads:
      three look-aheads, each finding its class before any line break, then
      at least six characters, none a line break, up to the end. */
  ghost predicate PasswordPatternMatches(s: string) {
    && (exists k :: 0 <= k < |s| && IsLower(s[k]) && NoLineBreak(s[..k]))
    && (exists k :: 0 <= k < |s| && IsUpper(s[k]) && NoLineBreak(s[..k]))
    && (exists k :: 0 <= k < |s| && IsDigit(s[k]) && NoLineBreak(s[..k]))
    && |s| >= 6 && NoLineBreak(s)
  }

  /** The same check as a scan: six characters or more, no line break, and a
      lower-case letter, an upper-case letter and a digit somewhere. */
  function ValidPassword(s: string): bool {
    |s| >= 6 && !HasChar(s, '\n') && HasLower(s) && HasUpper(s) && HasDigit(s)
  }

  lemma ValidPasswordMatchesPattern(s: string)
    ensures ValidPassword(s) <==> PasswordPatternMatches(s)
  {
    if ValidPassword(s) {
      var a :| 0 <= a < |s| && IsLower(s[a]);
      var b :| 0 <= b < |s| && IsUpper(s[b]);
      var c :| 0 <= c < |s| && IsDigit(s[c]);
      assert NoLineBreak(s[..a]) && NoLineBreak(s[..b]) && NoLineBreak(s[..c]);
    }
  }

  // The addresses and passwords of the registration tests. Each is a
  // parameter equal to the literal, so that the scans are reasoned about
  // through their contracts rather than unfolded character by character.

  lemma EmailAccepted(s: string)
    requires s == "susan@gmail.com"
    ensures ValidEmail(s)
  {
    assert s[..5] == "susan" && s[6..11] == "gmail" && s[12..] == "com";
    SplitIsValid(s, 5, 11);
  }

  /** No "@" at all. */
  lemma EmailWithoutAtRejected(s: string)
    requires s == "susangmail.com"
    ensures !ValidEmail(s)
  {
    assert forall k :: 0 <= k < |s| ==> s[k] != '@';
    assert FirstIndex(s, '@') == None;
  }

  /** No "." after the "@". */
  lemma EmailWithoutDotRejected(s: string)
    requires s == "susan@gmailcom"
    ensures !ValidEmail(s)
  {
    assert s[5] == '@' && forall k :: 0 <= k < 5 ==> s[k] != '@';
    assert FirstIndex(s, '@') == Some(5);
    assert forall k :: 0 <= k < |s[6..]| ==> s[6..][k] != '.';
    assert LastIndex(s[6..], '.') == None;
  }

  /** Nothing before the "@". */
  lemma EmailWithoutLocalPartRejected(s: string)
    requires s == "@gmail.com"
    ensures !ValidEmail(s)
  {
    ValidEmailMatchesPattern(s);
  }

  lemma PasswordAccepted(s: string)
    requires s == "Contra2segura"
    ensures ValidPassword(s)
  {
    ValidPasswordMatchesPattern(s);
    assert IsLower(s[1]) && NoLineBreak(s[..1]);
    assert IsUpper(s[0]) && NoLineBreak(s[..0]);
    assert IsDigit(s[6]) && NoLineBreak(s[..6]);
  }

  lemma ShortPasswordRejected(s: string)
    requires s == "Ca1"
    ensures !ValidPassword(s)
  {
  }

  lemma PasswordWithoutDigitRejected(s: string)
    requires s == "Contrasegura"
    ensures !ValidPassword(s)
  {
    ValidPasswordMatchesPattern(s);
  }

  lemma PasswordWithoutUpperRejected(s: string)
    requires s == "contra1segura"
    ensures !ValidPassword(s)
  {
    ValidPasswordMatchesPattern(s);
  }

  lemma PasswordWithoutLowerRejected(s: string)
    requires s == "1234567"
    ensures !ValidPassword(s)
  {
    ValidPasswordMatchesPattern(s);
  }
}
