/**
 The two string normalisations the program applies to what the user types:
 `str.lower()` on every answer and `str.title()` on the chosen day name.
 Only ASCII letters change case here; every other character is left as it is.
 */
module Text {

  predicate IsUpper(c: char) { 'A' <= c <= 'Z' }

  predicate IsLower(c: char) { 'a' <= c <= 'z' }

  predicate IsLetter(c: char) { IsUpper(c) || IsLower(c) }

  function LowerChar(c: char): (r: char)
    ensures !IsUpper(r)
    ensures IsLetter(r) == IsLetter(c)
    ensures IsLower(c) || !IsLetter(c) ==> r == c
  {
    if IsUpper(c) then (c as int + 32) as char else c
  }

  function UpperChar(c: char): (r: char)
    ensures !IsLower(r)
    ensures IsLetter(r) == IsLetter(c)
    ensures IsUpper(c) || !IsLetter(c) ==> r == c
  {
    if IsLower(c) then (c as int - 32) as char else c
  }

  /** `s.lower()`: every character mapped through LowerChar. */
  function Lower(s: string): (r: string)
    ensures |r| == |s|
  {
    seq(|s|, i requires 0 <= i < |s| => LowerChar(s[i]))
  }

  /** Lower-casing leaves no upper-case letter behind. */
  lemma LowerHasNoUpper(s: string)
    ensures forall i :: 0 <= i < |Lower(s)| ==> !IsUpper(Lower(s)[i])
  {
  }

  lemma LowerIdempotent(s: string)
    ensures Lower(Lower(s)) == Lower(s)
  {
  }

  /**
   `str.title()` from a position that is (inWord) or is not just after a letter:
   a letter that starts a word becomes upper case, any later letter of the word
   lower case, and every non-letter ends the word.
   */
  function TitleFrom(s: string, inWord: bool): (r: string)
    ensures |r| == |s|
    ensures forall i :: 0 <= i < |s| ==> IsLetter(r[i]) == IsLetter(s[i])
    ensures forall i :: 0 <= i < |s| && !IsLetter(s[i]) ==> r[i] == s[i]
    ensures s != [] && IsLetter(s[0]) ==> (if inWord then IsLower(r[0]) else IsUpper(r[0]))
  {
    if s == [] then []
    else
      var c := s[0];
      var d := if !IsLetter(c) then c else if inWord then LowerChar(c) else UpperChar(c);
      [d] + TitleFrom(s[1..], IsLetter(c))
  }

  function Title(s: string): (r: string)
    ensures |r| == |s|
    ensures forall i :: 0 <= i < |s| ==> IsLetter(r[i]) == IsLetter(s[i])
    ensures forall i :: 0 <= i < |s| && !IsLetter(s[i]) ==> r[i] == s[i]
    ensures s != [] && IsLetter(s[0]) ==> IsUpper(r[0])
  {
    TitleFrom(s, false)
  }

  /** Title-casing a title-cased string changes nothing. */
  lemma {:induction false} TitleFromIdempotent(s: string, inWord: bool)
    ensures TitleFrom(TitleFrom(s, inWord), inWord) == TitleFrom(s, inWord)
  {
    if s != [] {
      var t := TitleFrom(s, inWord);
      assert t[1..] == TitleFrom(s[1..], IsLetter(s[0]));
      assert IsLetter(t[0]) == IsLetter(s[0]);
      TitleFromIdempotent(s[1..], IsLetter(s[0]));
    }
  }

  lemma TitleIdempotent(s: string)
    ensures Title(Title(s)) == Title(s)
  {
    TitleFromIdempotent(s, false);
  }

  /** A word of lower-case letters gets exactly its first letter capitalised. */
  lemma {:induction false} TitleOfLowerWord(s: string)
    requires s != [] && forall i :: 0 <= i < |s| ==> IsLower(s[i])
    ensures Title(s) == [UpperChar(s[0])] + s[1..]
  {
    LowerRunInWord(s[1..]);
  }

  lemma {:induction false} LowerRunInWord(s: string)
    requires forall i :: 0 <= i < |s| ==> IsLower(s[i])
    ensures TitleFrom(s, true) == s
  {
    if s != [] {
      LowerRunInWord(s[1..]);
    }
  }

  /** One capital letter followed by lower-case letters. */
  predicate IsCapitalWord(s: string)
  {
    s != [] && IsUpper(s[0]) && forall i :: 1 <= i < |s| ==> IsLower(s[i])
  }

  /** A lower-case word title-cases to a capitalised word exactly when it is that word lower-cased. */
  lemma TitleMatchesCapitalWord(word: string, name: string)
    requires word != [] && forall i :: 0 <= i < |word| ==> IsLower(word[i])
    requires IsCapitalWord(name)
    ensures Title(word) == name <==> Lower(name) == word
  {
    TitleOfLowerWord(word);
    if Lower(name) == word {
      assert name[0] == UpperChar(word[0]);
      assert name == [name[0]] + name[1..];
    }
  }
}
