/** Character classes and string normalisation shared by the handlers.
    Regular-expression classes are read as their ASCII meaning. */
module Text {

  predicate IsLower(c: char) { 'a' <= c <= 'z' }
  predicate IsUpper(c: char) { 'A' <= c <= 'Z' }
  /** The regular-expression class `\d`, read as the ASCII digits only. */
  predicate IsDigit(c: char) { '0' <= c <= '9' }

  /** The regular-expression class `\w`, read as ASCII. */
  predicate IsWordChar(c: char) { IsLower(c) || IsUpper(c) || IsDigit(c) || c == '_' }

  /** The characters `str.strip()` removes: Python's whitespace. */
  predicate IsSpace(c: char) {
    || c == ' ' || c == '\t' || c == '\n' || c == '\r' || c == '\U{000B}' || c == '\U{000C}'
    || ('\U{001C}' <= c <= '\U{001F}') || c == '\U{0085}' || c == '\U{00A0}' || c == '\U{1680}'
    || ('\U{2000}' <= c <= '\U{200A}') || c == '\U{2028}' || c == '\U{2029}' || c == '\U{202F}'
    || c == '\U{205F}' || c == '\U{3000}'
  }

  function ToLower(c: char): (r: char)
    ensures !IsUpper(r)
    ensures IsUpper(c) ==> IsLower(r) && r as int == c as int + 32
    ensures !IsUpper(c) ==> r == c
  {
    if IsUpper(c) then (c as int + 32) as char else c
  }

  /** `unidecode(s).lower()` (podcasts.py:274, 285): lower-cases every
      letter; accents are left as they are. */
  function Plain(s: string): (r: string)
    ensures |r| == |s|
    ensures forall i :: 0 <= i < |s| ==> r[i] == ToLower(s[i])
  {
    if s == [] then [] else [ToLower(s[0])] + Plain(s[1..])
  }

  /** Two names that differ only in the case of their letters have the same
      plain form, and the plain form is already plain. */
  lemma PlainIgnoresCase(a: string, b: string)
    requires |a| == |b|
    requires forall i :: 0 <= i < |a| ==> ToLower(a[i]) == ToLower(b[i])
    ensures Plain(a) == Plain(b)
    ensures Plain(Plain(a)) == Plain(a)
  {
  }

  /** The plain form is taken character by character. */
  lemma PlainAppend(a: string, b: string)
    ensures Plain(a + b) == Plain(a) + Plain(b)
  {
    var r := Plain(a) + Plain(b);
    assert forall i :: 0 <= i < |a + b| ==> Plain(a + b)[i] == r[i];
  }
}
