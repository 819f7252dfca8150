/** `directory_name`: the folder a course's videos are saved under, made of
    the course name's safe characters only. */
module Folder {

  /** The characters of `string.digits + string.ascii_letters + " _."`. */
  predicate IsFolderChar(c: char) {
    '0' <= c <= '9' || 'a' <= c <= 'z' || 'A' <= c <= 'Z' || c == ' ' || c == '_' || c == '.'
  }

  /** `string.digits`, `string.ascii_lowercase` and `string.ascii_uppercase`. */
  const Digits: set<char> := {'0', '1', '2', '3', '4', '5', '6', '7', '8', '9'}
  const LowerLetters: set<char> :=
    {'a', 'b', 'c', 'd', 'e', 'f', 'g', 'h', 'i', 'j', 'k', 'l', 'm', 'n', 'o', 'p', 'q', 'r', 's', 't', 'u', 'v', 'w', 'x', 'y', 'z'}
  const UpperLetters: set<char> :=
    {'A', 'B', 'C', 'D', 'E', 'F', 'G', 'H', 'I', 'J', 'K', 'L', 'M', 'N', 'O', 'P', 'Q', 'R', 'S', 'T', 'U', 'V', 'W', 'X', 'Y', 'Z'}

  /** The allowed characters as the source lists them. */
  const AllowedChars: set<char> := Digits + LowerLetters + UpperLetters + {' ', '_', '.'}

  lemma DigitsRange(c: char)
    ensures '0' <= c <= '9' <==> c in Digits
  {
    var x := c as int - '0' as int;
    if 0 <= x < 10 {
      assert x == 0 || x == 1 || x == 2 || x == 3 || x == 4 || x == 5 || x == 6 || x == 7 || x == 8 || x == 9;
    }
  }

  lemma LowerRange(c: char)
    ensures 'a' <= c <= 'z' <==> c in LowerLetters
  {
    var x := c as int - 'a' as int;
    if 0 <= x < 26 {
      assert x == 0 || x == 1 || x == 2 || x == 3 || x == 4 || x == 5 || x == 6 || x == 7 || x == 8 || x == 9 || x == 10 || x == 11 || x == 12 || x == 13 || x == 14 || x == 15 || x == 16 || x == 17 || x == 18 || x == 19 || x == 20 || x == 21 || x == 22 || x == 23 || x == 24 || x == 25;
    }
  }

  lemma UpperRange(c: char)
    ensures 'A' <= c <= 'Z' <==> c in UpperLetters
  {
    var x := c as int - 'A' as int;
    if 0 <= x < 26 {
      assert x == 0 || x == 1 || x == 2 || x == 3 || x == 4 || x == 5 || x == 6 || x == 7 || x == 8 || x == 9 || x == 10 || x == 11 || x == 12 || x == 13 || x == 14 || x == 15 || x == 16 || x == 17 || x == 18 || x == 19 || x == 20 || x == 21 || x == 22 || x == 23 || x == 24 || x == 25;
    }
  }

  /** The range test accepts exactly the listed characters. */
  lemma FolderCharsListed(c: char)
    ensures IsFolderChar(c) <==> c in AllowedChars
  {
    DigitsRange(c);
    LowerRange(c);
    UpperRange(c);
  }

  predicate AllFolderChars(s: string) {
    forall k :: 0 <= k < |s| ==> IsFolderChar(s[k])
  }

  /** The name used when no character of the course name survives. */
  const DefaultFolder: string := "course_folder"

  /** The allowed characters of `s`, in their original order. */
  function Sanitized(s: string): (r: string)
    ensures |r| <= |s| && AllFolderChars(r)
  {
    if |s| == 0 then ""
    else Sanitized(s[..|s| - 1]) + (if IsFolderChar(s[|s| - 1]) then [s[|s| - 1]] else [])
  }

  /** The folder name for a course named `s`. */
  function DirectoryName(s: string): (r: string)
    ensures |r| > 0 && AllFolderChars(r)
  {
    var kept := Sanitized(s);
    if kept != "" then kept else DefaultFolder
  }

  /** `a` can be obtained from `b` by deleting characters. */
  predicate IsSubsequence(a: string, b: string)
    decreases |b|
  {
    if a == [] then true
    else if b == [] then false
    else if a[|a| - 1] == b[|b| - 1] then IsSubsequence(a[..|a| - 1], b[..|b| - 1])
    else IsSubsequence(a, b[..|b| - 1])
  }

  /** The sanitised name keeps the input's characters in order. */
  lemma {:induction false} SanitizedIsSubsequence(s: string)
    ensures IsSubsequence(Sanitized(s), s)
    decreases |s|
  {
    if |s| > 0 {
      var init := s[..|s| - 1];
      var last := s[|s| - 1];
      var r := Sanitized(s);
      SanitizedIsSubsequence(init);
      if IsFolderChar(last) {
        assert r == Sanitized(init) + [last];
        assert r[..|r| - 1] == Sanitized(init);
      } else {
        assert r == Sanitized(init);
        assert r == [] || r[|r| - 1] != last;
      }
    }
  }

  /** Every allowed character occurs in the sanitised name exactly as often
      as in the input, and no other character occurs at all. */
  lemma {:induction false} SanitizedCounts(s: string, c: char)
    ensures multiset(Sanitized(s))[c] == if IsFolderChar(c) then multiset(s)[c] else 0
    decreases |s|
  {
    if |s| > 0 {
      var init := s[..|s| - 1];
      SanitizedCounts(init, c);
      assert s == init + [s[|s| - 1]];
      assert multiset(s) == multiset(init) + multiset{s[|s| - 1]};
    }
  }

  /** The sanitised name is empty exactly when no character is allowed. */
  lemma SanitizedEmptyIff(s: string)
    ensures Sanitized(s) == "" <==> forall k :: 0 <= k < |s| ==> !IsFolderChar(s[k])
  {
    if Sanitized(s) == "" {
      forall k | 0 <= k < |s|
        ensures !IsFolderChar(s[k])
      {
        SanitizedCounts(s, s[k]);
        assert s[k] in multiset(s);
      }
    } else {
      var c := Sanitized(s)[0];
      SanitizedCounts(s, c);
      assert c in multiset(s);
      var k :| 0 <= k < |s| && s[k] == c;
    }
  }

  /** A name made only of allowed characters is kept unchanged. */
  lemma {:induction false} SanitizedKeepsClean(s: string)
    requires AllFolderChars(s)
    ensures Sanitized(s) == s
    decreases |s|
  {
    if |s| > 0 {
      SanitizedKeepsClean(s[..|s| - 1]);
    }
  }

  /** The folder name of a folder name is itself: the function is a
      projection onto clean, non-empty names. */
  lemma DirectoryNameIdempotent(s: string)
    ensures DirectoryName(DirectoryName(s)) == DirectoryName(s)
  {
    SanitizedKeepsClean(DirectoryName(s));
  }

  /** No allowed character at all gives the default name. */
  lemma DirectoryNameDefault(s: string)
    requires forall k :: 0 <= k < |s| ==> !IsFolderChar(s[k])
    ensures DirectoryName(s) == DefaultFolder
  {
    SanitizedEmptyIff(s);
  }
}
