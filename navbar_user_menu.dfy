/**
 * The avatar initials in the navigation bar's user menu: the first
 * letters of the space-separated words of the current user's name,
 * upper-cased, at most two of them; "U" when there is no name.
 */
module NavbarUserMenu {
  import opened Wrappers
  import opened Text
  import AuthContext

  /**
   * `parts.map(part => part[0]).join('')`: an empty part's `part[0]` is
   * `undefined`, which `join` writes as nothing.
   */
  function FirstLetters(parts: seq<string>): (s: string)
    ensures |s| <= |parts|
    decreases |parts|
  {
    if parts == [] then []
    else (if parts[0] == [] then [] else [parts[0][0]]) + FirstLetters(parts[1..])
  }

  /** `getInitials` for the context's `currentUser`. */
  function Initials(currentUser: Option<AuthContext.User>): (s: string)
    ensures currentUser.None? || currentUser.value.name == "" ==> s == "U"
    ensures |s| <= 2
  {
    if currentUser.None? || currentUser.value.name == "" then "U"
    else
      var all := Upper(FirstLetters(Split(currentUser.value.name, ' ')));
      all[..if |all| < 2 then |all| else 2]
  }

  function Spaces(n: nat): (s: string)
    ensures |s| == n && forall i :: 0 <= i < n ==> s[i] == ' '
  {
    seq(n, _ => ' ')
  }

  function EmptyParts(n: nat): (s: seq<string>)
    ensures |s| == n && forall i :: 0 <= i < n ==> s[i] == []
  {
    seq(n, _ => [])
  }

  lemma {:induction false} FirstLettersAppend(x: seq<string>, y: seq<string>)
    ensures FirstLetters(x + y) == FirstLetters(x) + FirstLetters(y)
    decreases |x|
  {
    if x == [] {
      assert x + y == y;
    } else {
      assert (x + y)[1..] == x[1..] + y;
      FirstLettersAppend(x[1..], y);
    }
  }

  /** Without empty parts, the letters are the parts' first characters, one per part, in order. */
  lemma {:induction false} FirstLettersOfWords(parts: seq<string>)
    requires forall k :: 0 <= k < |parts| ==> parts[k] != []
    ensures |FirstLetters(parts)| == |parts|
    ensures forall k :: 0 <= k < |parts| ==> FirstLetters(parts)[k] == parts[k][0]
    decreases |parts|
  {
    if parts != [] {
      FirstLettersOfWords(parts[1..]);
      assert FirstLetters(parts) == [parts[0][0]] + FirstLetters(parts[1..]);
    }
  }

  /** Empty parts contribute no letter. */
  lemma {:induction false} FirstLettersOfEmptyParts(n: nat)
    ensures FirstLetters(EmptyParts(n)) == []
    decreases n
  {
    if n > 0 {
      assert EmptyParts(n)[1..] == EmptyParts(n - 1);
      FirstLettersOfEmptyParts(n - 1);
    }
  }

  /** Each leading space splits off one empty part. */
  lemma {:induction false} SplitLeadingSpaces(n: nat, b: string)
    ensures Split(Spaces(n) + b, ' ') == EmptyParts(n) + Split(b, ' ')
    decreases n
  {
    if n > 0 {
      assert Spaces(n) + b == [] + [' '] + (Spaces(n - 1) + b);
      SplitAfterPart([], Spaces(n - 1) + b, ' ');
      SplitLeadingSpaces(n - 1, b);
      assert EmptyParts(n) == [[]] + EmptyParts(n - 1);
    } else {
      assert Spaces(n) + b == b;
      assert EmptyParts(n) + Split(b, ' ') == Split(b, ' ');
    }
  }

  /** The user with the given name, other fields as given. */
  function Named(u: AuthContext.User, name: string): Option<AuthContext.User> {
    Some(u.(name := name))
  }

  /** Two non-empty parts lead the letters with their first characters. */
  lemma LettersOfTwo(a: string, b: string, rest: seq<string>)
    requires a != [] && b != []
    ensures FirstLetters([a] + ([b] + rest)) == [a[0], b[0]] + FirstLetters(rest)
  {
    assert ([a] + ([b] + rest))[1..] == [b] + rest;
    assert ([b] + rest)[1..] == rest;
  }

  /** The initials of a name with the given letters: the first two, upper-cased. */
  lemma InitialsOfLetters(u: AuthContext.User, name: string, letters: string)
    requires name != [] && FirstLetters(Split(name, ' ')) == letters && |letters| >= 2
    ensures Initials(Named(u, name)) == [UpperChar(letters[0]), UpperChar(letters[1])]
  {
  }

  /** A two-word name gives the two words' first letters, upper-cased. */
  lemma TwoWords(u: AuthContext.User, a: string, b: string)
    requires a != [] && b != [] && ' ' !in a && ' ' !in b
    ensures Initials(Named(u, a + " " + b)) == [UpperChar(a[0]), UpperChar(b[0])]
  {
    assert a + " " + b == a + [' '] + b;
    SplitAfterPart(a, b, ' ');
    SplitOfSeparatorFree(b, ' ');
    LettersOfTwo(a, b, []);
    InitialsOfLetters(u, a + " " + b, [a[0], b[0]]);
  }

  /** Further words are not shown: only the first two letters are kept. */
  lemma ThirdWordDropped(u: AuthContext.User, a: string, b: string, c: string)
    requires a != [] && b != [] && c != [] && ' ' !in a && ' ' !in b
    ensures Initials(Named(u, a + " " + b + " " + c)) == Initials(Named(u, a + " " + b))
  {
    TwoWords(u, a, b);
    var name := a + " " + b + " " + c;
    assert name == a + [' '] + (b + [' '] + c);
    SplitAfterPart(b, c, ' ');
    SplitAfterPart(a, b + [' '] + c, ' ');
    LettersOfTwo(a, b, Split(c, ' '));
    InitialsOfLetters(u, name, [a[0], b[0]] + FirstLetters(Split(c, ' ')));
  }

  /** A run of `n` spaces after a space-free part splits into that part and `n - 1` empty parts. */
  lemma SplitSpaced(a: string, b: string, n: nat)
    requires n >= 1 && ' ' !in a
    ensures Split(a + Spaces(n) + b, ' ') == [a] + (EmptyParts(n - 1) + Split(b, ' '))
  {
    assert a + Spaces(n) + b == a + [' '] + (Spaces(n - 1) + b);
    SplitAfterPart(a, Spaces(n - 1) + b, ' ');
    SplitLeadingSpaces(n - 1, b);
  }

  /** Empty parts between two others change no letter. */
  lemma LettersSkipEmpty(a: string, m: nat, rest: seq<string>)
    ensures FirstLetters([a] + (EmptyParts(m) + rest)) == FirstLetters([a] + rest)
  {
    FirstLettersAppend([a], EmptyParts(m) + rest);
    FirstLettersAppend(EmptyParts(m), rest);
    FirstLettersOfEmptyParts(m);
    FirstLettersAppend([a], rest);
  }

  /** The empty parts leave the letters as one space would. */
  lemma LettersSpaced(a: string, b: string, n: nat)
    requires n >= 1 && ' ' !in a
    ensures FirstLetters(Split(a + Spaces(n) + b, ' ')) == FirstLetters(Split(a + " " + b, ' '))
  {
    SplitSpaced(a, b, n);
    SplitSpaced(a, b, 1);
    assert a + Spaces(1) + b == a + " " + b;
    LettersSkipEmpty(a, n - 1, Split(b, ' '));
    LettersSkipEmpty(a, 0, Split(b, ' '));
  }

  /**
   * A run of spaces between two parts of a name reads as one space: the
   * empty parts it splits into contribute nothing.
   */
  lemma ConsecutiveSpacesIgnored(u: AuthContext.User, a: string, b: string, n: nat)
    requires n >= 1 && ' ' !in a
    ensures Initials(Named(u, a + Spaces(n) + b)) == Initials(Named(u, a + " " + b))
  {
    LettersSpaced(a, b, n);
    assert |a + Spaces(n) + b| > 0 && |a + " " + b| > 0;
  }

  /** A part that starts with a non-separator character keeps that character first. */
  lemma SplitFirstPart(s: string, sep: char)
    requires s != [] && s[0] != sep
    ensures Split(s, sep)[0] != [] && Split(s, sep)[0][0] == s[0]
  {
  }

  /**
   * Any name whose first two words are `a` and `b`, whatever spaces come
   * before, between (at least one) and whatever follows `b`: the initials are
   * the two words' first letters, upper-cased.
   */
  lemma FirstTwoWords(u: AuthContext.User, i: nat, a: string, j: nat, b: string, rest: string)
    requires a != [] && ' ' !in a && j >= 1 && b != [] && b[0] != ' '
    ensures Initials(Named(u, Spaces(i) + a + Spaces(j) + b + rest)) == [UpperChar(a[0]), UpperChar(b[0])]
  {
    var name := Spaces(i) + a + Spaces(j) + b + rest;
    assert name == Spaces(i) + (a + Spaces(j) + (b + rest));
    SplitLeadingSpaces(i, a + Spaces(j) + (b + rest));
    SplitSpaced(a, b + rest, j);
    var p := Split(b + rest, ' ');
    SplitFirstPart(b + rest, ' ');
    var tail := [a] + (EmptyParts(j - 1) + p);
    FirstLettersAppend(EmptyParts(i), tail);
    FirstLettersOfEmptyParts(i);
    LettersSkipEmpty(a, j - 1, p);
    assert [a] + p == [a] + ([p[0]] + p[1..]);
    LettersOfTwo(a, p[0], p[1..]);
    InitialsOfLetters(u, name, [a[0], p[0][0]] + FirstLetters(p[1..]));
  }

  /** A name with one word among spaces gives that word's first letter, upper-cased. */
  lemma OneWord(u: AuthContext.User, i: nat, a: string, j: nat)
    requires a != [] && ' ' !in a
    ensures Initials(Named(u, Spaces(i) + a + Spaces(j))) == [UpperChar(a[0])]
  {
    var name := Spaces(i) + a + Spaces(j);
    assert name == Spaces(i) + (a + Spaces(j));
    SplitLeadingSpaces(i, a + Spaces(j));
    var tail := Split(a + Spaces(j), ' ');
    if j == 0 {
      assert a + Spaces(j) == a;
      SplitOfSeparatorFree(a, ' ');
      LettersSkipEmpty(a, 0, []);
    } else {
      assert a + Spaces(j) == a + Spaces(j) + [];
      SplitSpaced(a, [], j);
      assert Split([], ' ') == EmptyParts(1);
      LettersSkipEmpty(a, j - 1, EmptyParts(1));
      FirstLettersAppend([a], EmptyParts(1));
      FirstLettersOfEmptyParts(1);
    }
    assert FirstLetters([a]) == [a[0]];
    FirstLettersAppend(EmptyParts(i), tail);
    FirstLettersOfEmptyParts(i);
    assert FirstLetters(Split(name, ' ')) == [a[0]];
  }

  /** A name of spaces only has no word, so it gives no initials at all (not "U"). */
  lemma OnlySpaces(u: AuthContext.User, n: nat)
    requires n >= 1
    ensures Initials(Named(u, Spaces(n))) == ""
  {
    assert Spaces(n) == Spaces(n) + [];
    SplitLeadingSpaces(n, []);
    assert EmptyParts(n) + Split([], ' ') == EmptyParts(n + 1);
    FirstLettersOfEmptyParts(n + 1);
  }
}
