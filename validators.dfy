/**
 * The `match` patterns of the two Mongoose schemas, written out as the
 * languages the regular expressions accept.
 */
module Validators {
  import opened Text

  predicate IsSeparator(c: char) { c == '.' || c == '-' }

  /**
   * `\w+([.-]?\w+)*`: runs of word characters, each pair of runs joined by
   * at most one '.' or '-'; so it starts and ends with a word character and
   * never has two separators in a row.
   */
  predicate WordRuns(s: string) {
    && |s| > 0
    && IsWordChar(s[0])
    && IsWordChar(s[|s| - 1])
    && (forall i :: 0 <= i < |s| ==> IsWordChar(s[i]) || IsSeparator(s[i]))
    && (forall i :: 0 <= i < |s| - 1 ==> IsWordChar(s[i]) || IsWordChar(s[i + 1]))
  }

  /** `(\.\w{2,3})+`: one or more groups of a '.' and two or three word characters. */
  predicate TopLevelGroups(s: string)
    decreases |s|
  {
    && |s| >= 3
    && s[0] == '.' && IsWordChar(s[1]) && IsWordChar(s[2])
    && (|| |s| == 3
        || TopLevelGroups(s[3..])
        || (IsWordChar(s[3]) && (|s| == 4 || TopLevelGroups(s[4..]))))
  }

  /** The part after '@': `\w+([.-]?\w+)*(\.\w{2,3})+`. */
  predicate DomainPart(s: string) {
    exists k :: 0 < k < |s| && WordRuns(s[..k]) && TopLevelGroups(s[k..])
  }

  /** The schemas' email pattern `^\w+([.-]?\w+)*@\w+([.-]?\w+)*(\.\w{2,3})+$`. */
  predicate MatchesEmail(s: string) {
    exists k :: 0 <= k < |s| && s[k] == '@' && WordRuns(s[..k]) && DomainPart(s[k + 1..])
  }

  predicate IsPhoneChar(c: char) {
    IsDigit(c) || IsSpace(c) || c == '-' || c == '(' || c == ')' || c == '+'
  }

  /** The phone pattern `^[\d\s\-\(\)\+]+$`. */
  predicate MatchesPhone(s: string) {
    |s| > 0 && forall i :: 0 <= i < |s| ==> IsPhoneChar(s[i])
  }

  predicate IsZipChar(c: char) {
    IsLetter(c) || IsDigit(c) || IsSpace(c) || c == '-'
  }

  /** The postal-code pattern `^[A-Za-z\d\s-]+$`. */
  predicate MatchesZipCode(s: string) {
    |s| > 0 && forall i :: 0 <= i < |s| ==> IsZipChar(s[i])
  }

  /** Characters the pieces of an email may contain: word characters and the separators. */
  predicate EmailPieceChars(s: string) {
    forall i :: 0 <= i < |s| ==> IsWordChar(s[i]) || IsSeparator(s[i])
  }

  lemma {:induction false} TopLevelGroupsChars(s: string)
    requires TopLevelGroups(s)
    ensures EmailPieceChars(s)
    decreases |s|
  {
    if |s| > 3 {
      if TopLevelGroups(s[3..]) {
        TopLevelGroupsChars(s[3..]);
        forall i | 3 <= i < |s| ensures IsWordChar(s[i]) || IsSeparator(s[i]) {
          assert s[i] == s[3..][i - 3];
        }
      } else {
        if |s| > 4 {
          TopLevelGroupsChars(s[4..]);
          forall i | 4 <= i < |s| ensures IsWordChar(s[i]) || IsSeparator(s[i]) {
            assert s[i] == s[4..][i - 4];
          }
        }
      }
    }
  }

  lemma WordRunsChars(s: string)
    requires WordRuns(s)
    ensures |s| > 0 && EmailPieceChars(s)
  {
  }

  /** Word characters and separators are neither '@' nor white space. */
  lemma PieceCharsClean(s: string)
    requires EmailPieceChars(s)
    ensures forall i :: 0 <= i < |s| ==> s[i] != '@' && !IsSpace(s[i])
  {
  }

  /**
   * A matching email has exactly one '@', preceded by a non-empty local
   * part, and no white space; after the '@' comes a non-empty run, a '.',
   * and at least two more characters.
   */
  lemma EmailShape(s: string) returns (at: nat, dot: nat)
    requires MatchesEmail(s)
    ensures 0 < at && at + 1 < dot < |s| - 2
    ensures s[at] == '@' && s[dot] == '.'
    ensures forall i :: 0 <= i < |s| && i != at ==> s[i] != '@' && !IsSpace(s[i])
  {
    var k :| 0 <= k < |s| && s[k] == '@' && WordRuns(s[..k]) && DomainPart(s[k + 1..]);
    var local, d := s[..k], s[k + 1..];
    WordRunsChars(local);
    PieceCharsClean(local);
    var j := DomainShape(d);
    at, dot := k, k + 1 + j;
    assert s[dot] == d[j];
    forall i | 0 <= i < |s| && i != at ensures s[i] != '@' && !IsSpace(s[i]) {
      if i < k {
        assert s[i] == local[i];
      } else {
        assert s[i] == d[i - k - 1];
      }
    }
  }

  lemma DomainShape(d: string) returns (dot: nat)
    requires DomainPart(d)
    ensures 0 < dot < |d| - 2 && d[dot] == '.'
    ensures forall i :: 0 <= i < |d| ==> d[i] != '@' && !IsSpace(d[i])
  {
    var j :| 0 < j < |d| && WordRuns(d[..j]) && TopLevelGroups(d[j..]);
    var word, tail := d[..j], d[j..];
    WordRunsChars(word);
    TopLevelGroupsChars(tail);
    PieceCharsClean(word);
    PieceCharsClean(tail);
    dot := j;
    assert d[dot] == tail[0];
    forall i | 0 <= i < |d| ensures d[i] != '@' && !IsSpace(d[i]) {
      if i < j {
        assert d[i] == word[i];
      } else {
        assert d[i] == tail[i - j];
      }
    }
  }

  lemma {:induction false} TopLevelGroupsLast(s: string)
    requires TopLevelGroups(s)
    ensures IsWordChar(s[|s| - 1])
    decreases |s|
  {
    if |s| > 3 {
      if TopLevelGroups(s[3..]) {
        TopLevelGroupsLast(s[3..]);
      } else if |s| > 4 {
        TopLevelGroupsLast(s[4..]);
      }
    }
  }

  /** A matching email is unchanged by trimming. */
  lemma EmailTrimStable(s: string)
    requires MatchesEmail(s)
    ensures Trim(s) == s
  {
    var at, dot := EmailShape(s);
    assert !IsSpace(s[0]) && !IsSpace(s[|s| - 1]);
    TrimOfTrimmed(s);
  }

  /** A local part, an '@', a run and top-level groups, at the given offsets, make a matching email. */
  lemma EmailAt(s: string, at: nat, dot: nat)
    requires at + 1 < dot < |s| && s[at] == '@'
    requires WordRuns(s[..at]) && WordRuns(s[at + 1..dot]) && TopLevelGroups(s[dot..])
    ensures MatchesEmail(s)
  {
    var d := s[at + 1..];
    assert d[..dot - at - 1] == s[at + 1..dot];
    assert d[dot - at - 1..] == s[dot..];
  }

  lemma SampleRuns()
    ensures WordRuns("jo.doe") && WordRuns("mail-box")
  {
    assert WordRuns("jo.doe");
  }

  lemma CountryGroups()
    ensures TopLevelGroups(".co.uk")
  {
    assert ".co.uk"[3..] == ".uk";
  }

  /** An address the pattern accepts. */
  lemma AcceptsDottedAddress()
    ensures MatchesEmail("jo.doe@mail-box.co.uk")
  {
    var s := "jo.doe@mail-box.co.uk";
    SampleRuns();
    CountryGroups();
    assert s[..6] == "jo.doe";
    assert s[7..15] == "mail-box";
    assert s[15..] == ".co.uk";
    EmailAt(s, 6, 15);
  }

  /** A one-letter top-level domain is refused: every group needs two or three word characters. */
  lemma RefusesOneLetterDomain()
    ensures !MatchesEmail("a@b.c")
  {
    var s := "a@b.c";
    if MatchesEmail(s) {
      var at, dot := EmailShape(s);
    }
  }
}
