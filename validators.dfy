/** The four input validators of utils/validators.js. Each regular expression
    is restated as an explicit predicate over the string: the character
    classes it admits, the lengths it demands and where separators may stand.
    A string is a sequence of Unicode scalar values; JavaScript counts UTF-16
    code units instead, which differs only for characters outside the Basic
    Multilingual Plane. */
module Validators {

  // ---------------------------------------------------------------------
  // Character classes, as JavaScript regular expressions without the `u`
  // flag define them.

  predicate IsDigit(c: char) { '0' <= c <= '9' }
  predicate IsLower(c: char) { 'a' <= c <= 'z' }
  predicate IsUpper(c: char) { 'A' <= c <= 'Z' }
  predicate IsLetter(c: char) { IsLower(c) || IsUpper(c) }

  /** A word character: an ASCII letter, a digit or '_'. */
  predicate IsWord(c: char) { IsLetter(c) || IsDigit(c) || c == '_' }

  /** The characters the wildcard does not match. */
  predicate IsLineTerminator(c: char)
  {
    c == '\n' || c == '\r' || c == '\U{2028}' || c == '\U{2029}'
  }

  /** A white-space class character: white space and line terminators. */
  predicate IsSpace(c: char)
  {
    || c == '\t' || c == '\n' || c == '\U{000B}' || c == '\U{000C}' || c == '\r' || c == ' '
    || c == '\U{00A0}' || c == '\U{1680}' || ('\U{2000}' <= c <= '\U{200A}')
    || c == '\U{2028}' || c == '\U{2029}' || c == '\U{202F}' || c == '\U{205F}'
    || c == '\U{3000}' || c == '\U{FEFF}'
  }

  predicate AllWord(s: string)
  {
    forall i :: 0 <= i < |s| ==> IsWord(s[i])
  }

  // ---------------------------------------------------------------------
  // validatePassword (utils/validators.js:8-11)

  /** Eight or more characters, none a line terminator, with at least one
      digit, one lower-case and one upper-case ASCII letter. */
  predicate ValidPassword(s: string)
  {
    && |s| >= 8
    && (forall i :: 0 <= i < |s| ==> !IsLineTerminator(s[i]))
    && (exists i :: 0 <= i < |s| && IsDigit(s[i]))
    && (exists i :: 0 <= i < |s| && IsLower(s[i]))
    && (exists i :: 0 <= i < |s| && IsUpper(s[i]))
  }

  lemma PasswordExamples()
    ensures ValidPassword("Passw0rd")
    ensures !ValidPassword("password1")
    ensures !ValidPassword("Pass0rd")
  {
    assert IsDigit("Passw0rd"[5]) && IsLower("Passw0rd"[1]) && IsUpper("Passw0rd"[0]);
  }

  // ---------------------------------------------------------------------
  // validateName (utils/validators.js:14-17)

  /** Two or more characters, each an ASCII letter or white space. */
  predicate ValidName(s: string)
  {
    |s| >= 2 && forall i :: 0 <= i < |s| ==> IsLetter(s[i]) || IsSpace(s[i])
  }

  /** A digit or any ASCII punctuation anywhere rejects a name. */
  lemma NameRejectsDigitsAndPunctuation(s: string, i: nat)
    requires i < |s|
    requires IsDigit(s[i]) || ('!' <= s[i] <= '/') || (':' <= s[i] <= '@')
             || ('[' <= s[i] <= '`') || ('{' <= s[i] <= '~')
    ensures !ValidName(s)
  {
  }

  // ---------------------------------------------------------------------
  // validateEmail (utils/validators.js:2-5)

  predicate IsSep(c: char) { c == '.' || c == '-' }

  /** One or more runs of word characters joined by single '.' or '-'
      separators, so the string starts and ends with a word character and no
      two separators are adjacent. */
  predicate WordRuns(s: string)
  {
    && |s| > 0 && IsWord(s[0]) && IsWord(s[|s| - 1])
    && (forall i :: 0 <= i < |s| ==> IsWord(s[i]) || IsSep(s[i]))
    && (forall i :: 0 <= i < |s| - 1 ==> IsWord(s[i]) || IsWord(s[i + 1]))
  }

  /** The split of an address the expression finds: a local part before the
      '@' at `at`, and a domain whose final group, a dot and two or three word
      characters, starts at `dot`.
      Every earlier dot-and-two-or-three-word-characters group of the domain
      is itself a run joined by a '.', so the domain before `dot` is one set
      of word runs. */
  predicate EmailSplit(s: string, at: nat, dot: nat)
    requires at < dot < |s|
  {
    && s[at] == '@' && s[dot] == '.'
    && WordRuns(s[..at]) && WordRuns(s[at + 1..dot])
    && (|s| - dot - 1 == 2 || |s| - dot - 1 == 3) && AllWord(s[dot + 1..])
  }

  predicate ValidEmail(s: string)
  {
    exists at: nat, dot: nat :: at < dot < |s| && EmailSplit(s, at, dot)
  }

  /** An accepted address has exactly one '@' and starts with a word character. */
  lemma {:induction false} EmailOneAt(s: string)
    requires ValidEmail(s)
    ensures |s| > 0 && IsWord(s[0])
    ensures exists k :: 0 <= k < |s| && s[k] == '@'
    ensures forall i, j :: 0 <= i < |s| && 0 <= j < |s| && s[i] == '@' && s[j] == '@' ==> i == j
  {
    var at: nat, dot: nat :| at < dot < |s| && EmailSplit(s, at, dot);
    forall i | 0 <= i < |s| && s[i] == '@' ensures i == at {
      EmailCharAt(s, at, dot, i);
    }
    assert s[..at][0] == s[0];
  }

  /** Every character of an accepted address, by position: the local part and
      the domain hold only word characters and separators. */
  lemma {:induction false} EmailCharAt(s: string, at: nat, dot: nat, i: nat)
    requires at < dot < |s| && EmailSplit(s, at, dot)
    requires i < |s|
    ensures i == at || IsWord(s[i]) || IsSep(s[i])
    ensures IsSep(s[i]) ==> 0 < i < |s| - 1 && IsWord(s[i - 1]) && IsWord(s[i + 1])
  {
    if i < at {
      assert s[..at][i] == s[i];
      if IsSep(s[i]) {
        assert s[..at][i - 1] == s[i - 1] && s[..at][i + 1] == s[i + 1];
        SepNeighbours(s[..at], i);
      }
    } else if at < i < dot {
      var d := s[at + 1..dot];
      assert d[i - at - 1] == s[i];
      if IsSep(s[i]) {
        SepNeighbours(d, i - at - 1);
        assert d[i - at - 2] == s[i - 1] && d[i - at] == s[i + 1];
      }
    } else if i == dot {
      assert s[at + 1..dot][dot - at - 2] == s[dot - 1];
      assert s[dot + 1..][0] == s[dot + 1];
    } else if i > dot {
      assert s[dot + 1..][i - dot - 1] == s[i];
    }
  }

  /** Inside a run of words, a separator stands between two word characters. */
  lemma SepNeighbours(s: string, i: nat)
    requires WordRuns(s) && i < |s| && IsSep(s[i])
    ensures 0 < i < |s| - 1 && IsWord(s[i - 1]) && IsWord(s[i + 1])
  {
    assert i != 0 && i != |s| - 1;
  }

  /** In an accepted address every '.' and '-' has a word character on both
      sides: none starts or ends it, none follows or precedes another
      separator, none touches the '@'. */
  lemma EmailSeparators(s: string)
    requires ValidEmail(s)
    ensures forall i :: 0 <= i < |s| && IsSep(s[i]) ==>
      0 < i < |s| - 1 && IsWord(s[i - 1]) && IsWord(s[i + 1])
  {
    var at: nat, dot: nat :| at < dot < |s| && EmailSplit(s, at, dot);
    forall i | 0 <= i < |s| && IsSep(s[i])
      ensures 0 < i < |s| - 1 && IsWord(s[i - 1]) && IsWord(s[i + 1])
    {
      EmailCharAt(s, at, dot, i);
    }
  }

  /** The last '.' of an accepted address is followed by two or three word
      characters that end it. */
  lemma EmailTopLevelDomain(s: string)
    requires ValidEmail(s)
    ensures exists k ::
      && 0 <= k < |s| && s[k] == '.'
      && (|s| - k - 1 == 2 || |s| - k - 1 == 3)
      && (forall i :: k < i < |s| ==> IsWord(s[i]))
  {
    var at: nat, dot: nat :| at < dot < |s| && EmailSplit(s, at, dot);
    forall i | dot < i < |s| ensures IsWord(s[i]) {
      assert s[dot + 1..][i - dot - 1] == s[i];
    }
  }

  lemma EmailExamples()
    ensures ValidEmail("a.b@c-d.io")
  {
    var s := "a.b@c-d.io";
    assert s[..3] == "a.b" && s[4..7] == "c-d" && s[8..] == "io";
    assert WordRuns("a.b") && WordRuns("c-d") && AllWord("io");
    assert EmailSplit(s, 3, 7);
  }

  // ---------------------------------------------------------------------
  // validateURL (utils/validators.js:20-23)

  predicate IsHostChar(c: char) { IsDigit(c) || IsLower(c) || c == '.' || c == '-' }
  predicate IsTldChar(c: char) { IsLower(c) || c == '.' }
  /** A path character: '/', a word character, a space, '.' or '-'. The
      optional closing '/' is itself a path character, so it adds nothing. */
  predicate IsPathChar(c: char) { c == '/' || IsWord(c) || c == ' ' || c == '.' || c == '-' }

  /** What follows the optional scheme: a non-empty host, a '.' at `d`, two to
      six top-level characters ending at `e`, then a path. */
  predicate UrlSplit(t: string, d: nat, e: nat)
    requires 0 < d < e <= |t|
  {
    && (forall i :: 0 <= i < d ==> IsHostChar(t[i]))
    && t[d] == '.'
    && 2 <= e - d - 1 <= 6
    && (forall i :: d < i < e ==> IsTldChar(t[i]))
    && (forall i :: e <= i < |t| ==> IsPathChar(t[i]))
  }

  predicate UrlRest(t: string)
  {
    exists d: nat, e: nat :: 0 < d < e <= |t| && UrlSplit(t, d, e)
  }

  predicate ValidURL(s: string)
  {
    || UrlRest(s)
    || (|s| >= 7 && s[..7] == "http://" && UrlRest(s[7..]))
    || (|s| >= 8 && s[..8] == "https://" && UrlRest(s[8..]))
  }

  /** The length of the scheme an accepted URL starts with (0 when none). */
  function SchemeLength(s: string): (n: nat)
    ensures n == 0 || n == 7 || n == 8
    ensures n <= |s|
  {
    if |s| >= 8 && s[..8] == "https://" then 8
    else if |s| >= 7 && s[..7] == "http://" then 7
    else 0
  }

  /** Every character of the part after the scheme is a host, top-level or
      path character; none of these is ':', '?' or '#'. */
  lemma {:induction false} UrlRestChars(t: string, i: nat)
    requires UrlRest(t) && i < |t|
    ensures IsHostChar(t[i]) || IsTldChar(t[i]) || IsPathChar(t[i])
    ensures t[0] != ':' && IsHostChar(t[0])
  {
    var d: nat, e: nat :| 0 < d < e <= |t| && UrlSplit(t, d, e);
    if i < d {
    } else if i == d {
    } else if i < e {
    } else {
    }
  }

  /** A ':' anywhere rules out a URL without a scheme. */
  lemma ColonBlocksUrlRest(t: string, i: nat)
    requires i < |t| && t[i] == ':'
    ensures !UrlRest(t)
  {
    forall d: nat, e: nat | 0 < d < e <= |t| ensures !UrlSplit(t, d, e) {
      assert !IsHostChar(t[i]) && !IsTldChar(t[i]) && !IsPathChar(t[i]);
    }
  }

  /** The part after the scheme is decided by the string: a string that
      starts with a scheme cannot also be read without one. */
  lemma UrlSchemeForced(s: string)
    requires ValidURL(s)
    ensures UrlRest(s[SchemeLength(s)..])
  {
    if |s| >= 7 && s[..7] == "http://" {
      assert s[4] == ':';
      ColonBlocksUrlRest(s, 4);
    }
    if |s| >= 8 && s[..8] == "https://" {
      assert s[5] == ':';
      ColonBlocksUrlRest(s, 5);
      assert s[..7] != "http://" by { assert s[4] != ':'; }
    }
  }

  /** An accepted URL has no '?' or '#', no ':' except the one of its scheme,
      and the first character after the scheme is not an upper-case letter. */
  lemma UrlRejections(s: string)
    requires ValidURL(s)
    ensures forall i :: 0 <= i < |s| ==> s[i] != '?' && s[i] != '#'
    ensures forall i :: 0 <= i < |s| && s[i] == ':' ==> SchemeLength(s) > 0 && i == SchemeLength(s) - 3
    ensures SchemeLength(s) < |s| && !IsUpper(s[SchemeLength(s)])
  {
    var n := SchemeLength(s);
    UrlSchemeForced(s);
    var t := s[n..];
    UrlRestChars(t, 0);
    forall i | 0 <= i < |s|
      ensures s[i] != '?' && s[i] != '#'
      ensures s[i] == ':' ==> n > 0 && i == n - 3
    {
      if i >= n {
        assert t[i - n] == s[i];
        UrlRestChars(t, i - n);
      } else if n == 8 {
        assert s[..8][i] == s[i];
      } else {
        assert s[..7][i] == s[i];
      }
    }
  }

  lemma UrlExamples()
    ensures ValidURL("https://example.com/a_b")
  {
    var s := "https://example.com/a_b";
    assert s[..8] == "https://";
    assert UrlSplit(s[8..], 7, 11);
  }
}
