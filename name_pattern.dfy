/** The name format test of the edit form, `/^[a-zA-Z]+(\s[a-zA-Z]+)*$/`,
    as a matcher that follows the pattern character by character, and the
    shape of the strings it accepts. */
module NamePattern {

  import opened Chars

  /** The matcher for `[a-zA-Z]+(\s[a-zA-Z]+)*`: a letter, then the rest. */
  predicate NameMatches(s: string)
    decreases |s|
  {
    |s| > 0 && IsAsciiLetter(s[0]) && RestMatches(s[1..])
  }

  /** What may follow a letter: more letters, or one whitespace character and
      a new word, or nothing. */
  predicate RestMatches(s: string)
    decreases |s|
  {
    || s == []
    || (IsAsciiLetter(s[0]) && RestMatches(s[1..]))
    || (IsWhitespace(s[0]) && NameMatches(s[1..]))
  }

  /** Every character is a letter or whitespace. */
  predicate LettersAndWhitespace(s: string) {
    forall i | 0 <= i < |s| :: IsAsciiLetter(s[i]) || IsWhitespace(s[i])
  }

  /** No whitespace character follows another one. */
  predicate NoDoubleWhitespace(s: string) {
    forall i | 0 < i < |s| :: IsWhitespace(s[i]) ==> !IsWhitespace(s[i - 1])
  }

  /** The strings that may follow a letter: empty, or ending in a letter, made
      of letters and whitespace, with no two whitespace characters in a row. */
  predicate WellFormedTail(s: string) {
    s == [] || (IsAsciiLetter(s[|s| - 1]) && LettersAndWhitespace(s) && NoDoubleWhitespace(s))
  }

  /** A name of the accepted shape: words of ASCII letters separated by single
      whitespace characters, with no whitespace at either end. */
  predicate WellFormedName(s: string) {
    |s| > 0 && IsAsciiLetter(s[0]) && WellFormedTail(s)
  }

  /** Putting a letter in front of a string does not change whether it is a
      well-formed tail. */
  lemma TailAfterLetter(s: string)
    requires s != [] && IsAsciiLetter(s[0])
    ensures WellFormedTail(s) <==> WellFormedTail(s[1..])
  {
    var t := s[1..];
    if WellFormedTail(t) && t != [] {
      assert s[|s| - 1] == t[|t| - 1];
      forall i | 0 < i < |s| && IsWhitespace(s[i])
        ensures !IsWhitespace(s[i - 1])
      {
        if i > 1 {
          assert s[i] == t[i - 1] && s[i - 1] == t[i - 2];
        }
      }
    }
    if WellFormedTail(s) {
      forall i | 0 < i < |t| && IsWhitespace(t[i])
        ensures !IsWhitespace(t[i - 1])
      {
        assert t[i] == s[i + 1] && t[i - 1] == s[i];
      }
    }
  }

  lemma {:induction false} RestMatchesIff(s: string)
    ensures RestMatches(s) <==> WellFormedTail(s)
    decreases |s|
  {
    if s == [] {
    } else if IsAsciiLetter(s[0]) {
      RestMatchesIff(s[1..]);
      TailAfterLetter(s);
    } else if IsWhitespace(s[0]) {
      var t := s[1..];
      if |t| > 0 && IsAsciiLetter(t[0]) {
        RestMatchesIff(t[1..]);
        TailAfterLetter(t);
        if WellFormedTail(t) {
          assert s[|s| - 1] == t[|t| - 1];
          forall i | 0 < i < |s| && IsWhitespace(s[i])
            ensures !IsWhitespace(s[i - 1])
          {
            if i > 1 {
              assert s[i] == t[i - 1] && s[i - 1] == t[i - 2];
            }
          }
        }
        if WellFormedTail(s) {
          forall i | 0 < i < |t| && IsWhitespace(t[i])
            ensures !IsWhitespace(t[i - 1])
          {
            assert t[i] == s[i + 1] && t[i - 1] == s[i];
          }
        }
      } else if |t| > 0 {
        assert !RestMatches(s);
        assert !IsWhitespace(s[1]) || !WellFormedTail(s);
      }
    } else {
      assert !WellFormedTail(s) by {
        assert !(IsAsciiLetter(s[0]) || IsWhitespace(s[0]));
      }
    }
  }

  /** The matcher accepts exactly the well-formed names. */
  lemma NameMatchesIff(s: string)
    ensures NameMatches(s) <==> WellFormedName(s)
  {
    if |s| > 0 && IsAsciiLetter(s[0]) {
      RestMatchesIff(s[1..]);
      TailAfterLetter(s);
    }
  }

  /** The format test rejects a name holding a digit or any other character
      that is neither a letter nor whitespace, a name starting or ending with
      whitespace, and a name with two whitespace characters in a row. */
  lemma NameRejections(s: string)
    ensures (exists i | 0 <= i < |s| :: !IsAsciiLetter(s[i]) && !IsWhitespace(s[i])) ==> !NameMatches(s)
    ensures (exists i | 0 <= i < |s| :: IsDigit(s[i])) ==> !NameMatches(s)
    ensures s != [] && IsWhitespace(s[0]) ==> !NameMatches(s)
    ensures s != [] && IsWhitespace(s[|s| - 1]) ==> !NameMatches(s)
    ensures (exists i | 0 < i < |s| :: IsWhitespace(s[i - 1]) && IsWhitespace(s[i])) ==> !NameMatches(s)
    ensures s == [] ==> !NameMatches(s)
  {
    NameMatchesIff(s);
  }

  /** An accepted name has no whitespace to trim and is not blank. */
  lemma MatchedNameIsTrimmed(s: string)
    requires NameMatches(s)
    ensures Trim(s) == s && Trim(s) != []
  {
    NameMatchesIff(s);
    TrimOfUnpadded(s);
  }
}
