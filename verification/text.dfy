/** Letter case over ASCII letters, as Python's str.lower() and str.title()
    treat them. A character is "cased" here exactly when it is an ASCII
    letter. */
module Text {

  predicate IsUpper(c: char) { 'A' <= c <= 'Z' }

  predicate IsLower(c: char) { 'a' <= c <= 'z' }

  predicate IsCased(c: char) { IsUpper(c) || IsLower(c) }

  /** Lower-case mapping of one character: letters go to lower case, every
      other character is its own image. */
  function ToLower(c: char): (d: char)
    ensures !IsUpper(d)
    ensures IsCased(d) == IsCased(c)
    ensures !IsUpper(c) ==> d == c
    ensures IsUpper(c) ==> d as int == c as int + ('a' as int - 'A' as int)
  {
    if IsUpper(c) then (c as int - 'A' as int + 'a' as int) as char else c
  }

  /** Upper-case (for ASCII also title-case) mapping of one character. */
  function ToUpper(c: char): (d: char)
    ensures !IsLower(d)
    ensures IsCased(d) == IsCased(c)
    ensures ToLower(d) == ToLower(c)
    ensures !IsLower(c) ==> d == c
  {
    if IsLower(c) then (c as int - 'a' as int + 'A' as int) as char else c
  }

  /** Python's str.lower() over ASCII. */
  function Lower(s: string): (r: string)
    ensures |r| == |s|
    ensures forall i :: 0 <= i < |s| ==> r[i] == ToLower(s[i])
  {
    if s == [] then [] else [ToLower(s[0])] + Lower(s[1..])
  }

  /** s and t spell the same text, letter case aside. */
  predicate SameUpToCase(s: string, t: string)
  {
    |s| == |t| && forall i :: 0 <= i < |s| ==> ToLower(s[i]) == ToLower(t[i])
  }

  /** A character whose lower-case image is not a letter is that image. */
  lemma UncasedFixed(c: char, d: char)
    requires ToLower(c) == d && !IsCased(d)
    ensures c == d
  {
  }

  /** Two characters with the same lower-case image and the same "is upper"
      answer are equal. */
  lemma CaseDetermines(a: char, b: char)
    requires ToLower(a) == ToLower(b)
    requires IsUpper(a) == IsUpper(b)
    ensures a == b
  {
  }
}
