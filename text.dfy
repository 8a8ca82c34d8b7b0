/** ASCII models of the three string operations the view model uses:
    `lowercased()`, `capitalized` and `contains(_:)`. */
module Text {

  /** Lower-case mapping of one character; only 'A'..'Z' change. */
  function Lower(c: char): char {
    if 'A' <= c <= 'Z' then (c as int + 32) as char else c
  }

  /** Upper-case mapping of one character; only 'a'..'z' change. */
  function Upper(c: char): char {
    if 'a' <= c <= 'z' then (c as int - 32) as char else c
  }

  /** The characters that separate the words `capitalized` works on. */
  predicate IsWordSeparator(c: char) {
    c == ' ' || c == '\t' || c == '\n' || c == '\r'
  }

  /** A string with no upper-case ASCII letter in it. */
  predicate IsLowerString(s: string) {
    forall i :: 0 <= i < |s| ==> !('A' <= s[i] <= 'Z')
  }

  /** `String.lowercased()`: maps every character through Lower. */
  function Lowercase(s: string): (r: string)
    ensures |r| == |s|
  {
    seq(|s|, i requires 0 <= i < |s| => Lower(s[i]))
  }

  /** Lowercasing yields lower case, and lowercasing twice is lowercasing once. */
  lemma LowercaseIdempotent(s: string)
    ensures IsLowerString(Lowercase(s))
    ensures Lowercase(Lowercase(s)) == Lowercase(s)
  {
  }

  /** A string already in lower case is its own lowercasing. */
  lemma LowercaseOfLower(s: string)
    requires IsLowerString(s)
    ensures Lowercase(s) == s
  {
  }

  /** Lowercasing works character by character from the front. */
  lemma LowercaseCons(c: char, s: string)
    ensures Lowercase([c] + s) == [Lower(c)] + Lowercase(s)
  {
  }

  /** `capitalized` from a given position: the first character of each word is
      upper-cased and every other character lower-cased. */
  function CapitalizedFrom(s: string, atWordStart: bool): (r: string)
    ensures |r| == |s|
  {
    if s == [] then []
    else [if atWordStart then Upper(s[0]) else Lower(s[0])]
         + CapitalizedFrom(s[1..], IsWordSeparator(s[0]))
  }

  /** `String.capitalized`. */
  function Capitalized(s: string): (r: string)
    ensures |r| == |s|
  {
    CapitalizedFrom(s, true)
  }

  lemma {:induction false} LowercaseOfCapitalizedFrom(s: string, atWordStart: bool)
    ensures Lowercase(CapitalizedFrom(s, atWordStart)) == Lowercase(s)
  {
    if s != [] {
      var head := if atWordStart then Upper(s[0]) else Lower(s[0]);
      LowercaseOfCapitalizedFrom(s[1..], IsWordSeparator(s[0]));
      LowercaseCons(head, CapitalizedFrom(s[1..], IsWordSeparator(s[0])));
      LowercaseCons(s[0], s[1..]);
      assert s == [s[0]] + s[1..];
    }
  }

  /** Capitalizing changes letter case only: both sides agree once lowercased. */
  lemma LowercaseOfCapitalized(s: string)
    ensures Lowercase(Capitalized(s)) == Lowercase(s)
  {
    LowercaseOfCapitalizedFrom(s, true);
  }

  lemma {:induction false} CapitalizedFromLowerWord(w: string)
    requires IsLowerString(w)
    requires forall i :: 0 <= i < |w| ==> !IsWordSeparator(w[i])
    ensures CapitalizedFrom(w, false) == w
  {
    if w != [] {
      CapitalizedFromLowerWord(w[1..]);
    }
  }

  /** Capitalizing one lower-case word upper-cases its first character and
      leaves the rest alone. */
  lemma CapitalizedLowerWord(w: string)
    requires w != []
    requires IsLowerString(w)
    requires forall i :: 0 <= i < |w| ==> !IsWordSeparator(w[i])
    ensures Capitalized(w) == [Upper(w[0])] + w[1..]
  {
    CapitalizedFromLowerWord(w[1..]);
  }

  /** `needle` occurs in `hay` starting at index `i`. */
  ghost predicate OccursAt(hay: string, needle: string, i: int) {
    0 <= i && i + |needle| <= |hay| && hay[i..i + |needle|] == needle
  }

  /** `hay.contains(needle)`: some window of `hay` equals `needle`. */
  function Contains(hay: string, needle: string): (b: bool)
    ensures b <==> exists i :: OccursAt(hay, needle, i)
  {
    if needle <= hay then
      assert OccursAt(hay, needle, 0);
      true
    else if hay == [] then
      false
    else
      var rest := Contains(hay[1..], needle);
      ContainsStep(hay, needle);
      rest
  }

  /** Occurrences of `needle` in `hay` beyond index 0 are occurrences in `hay[1..]`. */
  lemma ContainsStep(hay: string, needle: string)
    requires hay != [] && !(needle <= hay)
    ensures (exists i :: OccursAt(hay, needle, i)) <==> (exists j :: OccursAt(hay[1..], needle, j))
  {
    if exists i :: OccursAt(hay, needle, i) {
      var i :| OccursAt(hay, needle, i);
      assert i != 0;
      assert hay[1..][i - 1..i - 1 + |needle|] == hay[i..i + |needle|];
      assert OccursAt(hay[1..], needle, i - 1);
    }
    if exists j :: OccursAt(hay[1..], needle, j) {
      var j :| OccursAt(hay[1..], needle, j);
      assert hay[j + 1..j + 1 + |needle|] == hay[1..][j..j + |needle|];
      assert OccursAt(hay, needle, j + 1);
    }
  }

  /** Extending the needle can only lose matches: if `needle + [c]` occurs, so does `needle`. */
  lemma ContainsLonger(hay: string, needle: string, c: char)
    requires Contains(hay, needle + [c])
    ensures Contains(hay, needle)
  {
    var i :| OccursAt(hay, needle + [c], i);
    assert hay[i..i + |needle|] == (needle + [c])[..|needle|];
    assert OccursAt(hay, needle, i);
  }
}
