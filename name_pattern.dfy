/** The PEAR package-name pattern `^[A-Za-z][a-zA-Z0-9_]+$` that every
    extension name must match.

    The pattern is given twice: as the regular-expression engine walks it
    (one letter, then one or more name characters, then the end anchor) and
    as the plain statement of which strings it admits (`IsValidName`); the
    lemmas show the two agree. A third reading follows PCRE exactly: written
    without the `D` modifier, `$` also matches just before a final newline. */
module NamePattern {

  import opened PhpStrings

  /** `[A-Za-z]` */
  predicate IsAsciiLetter(c: char) {
    'A' <= c <= 'Z' || 'a' <= c <= 'z'
  }

  /** `[a-zA-Z0-9_]` */
  predicate IsNameChar(c: char) {
    IsAsciiLetter(c) || '0' <= c <= '9' || c == '_'
  }

  /** A valid extension name: an ASCII letter followed by at least one
      further character, every one of them a letter, a digit or `_`. */
  predicate IsValidName(s: string) {
    |s| >= 2 && IsAsciiLetter(s[0]) && forall i :: 1 <= i < |s| ==> IsNameChar(s[i])
  }

  /** `[a-zA-Z0-9_]+$`, with `$` only at the very end of the subject. */
  predicate NameCharsToEnd(s: string) {
    |s| >= 1 && IsNameChar(s[0]) && (|s| == 1 || NameCharsToEnd(s[1..]))
  }

  /** `^[A-Za-z][a-zA-Z0-9_]+$` with a strict end anchor. */
  predicate MatchesPattern(s: string) {
    |s| >= 1 && IsAsciiLetter(s[0]) && NameCharsToEnd(s[1..])
  }

  /** PCRE's `$` without the `D` modifier: the end of the subject, or a
      newline that is the last character of the subject. */
  predicate PcreDollar(rest: string) {
    rest == [] || rest == ['\n']
  }

  /** `[a-zA-Z0-9_]+$` as PCRE reads it. */
  predicate PcreNameCharsToEnd(s: string) {
    |s| >= 1 && IsNameChar(s[0]) && (PcreDollar(s[1..]) || PcreNameCharsToEnd(s[1..]))
  }

  /** `^[A-Za-z][a-zA-Z0-9_]+$` as PCRE reads it. */
  predicate PcreMatchesPattern(s: string) {
    |s| >= 1 && IsAsciiLetter(s[0]) && PcreNameCharsToEnd(s[1..])
  }

  lemma {:induction false} NameCharsToEndIff(s: string)
    ensures NameCharsToEnd(s) <==> |s| >= 1 && forall i :: 0 <= i < |s| ==> IsNameChar(s[i])
  {
    if |s| > 1 {
      NameCharsToEndIff(s[1..]);
      if forall i :: 0 <= i < |s| ==> IsNameChar(s[i]) {
        assert forall i :: 0 <= i < |s[1..]| ==> IsNameChar(s[1..][i]) by {
          forall i | 0 <= i < |s[1..]| ensures IsNameChar(s[1..][i]) {
            assert s[1..][i] == s[i + 1];
          }
        }
      }
      if NameCharsToEnd(s) {
        forall i | 0 <= i < |s| ensures IsNameChar(s[i]) {
          if i > 0 { assert s[i] == s[1..][i - 1]; }
        }
      }
    }
  }

  /** The strict pattern admits exactly the valid names. */
  lemma PatternMatchesIff(s: string)
    ensures MatchesPattern(s) <==> IsValidName(s)
  {
    if |s| >= 1 {
      NameCharsToEndIff(s[1..]);
      if IsValidName(s) {
        forall i | 0 <= i < |s[1..]| ensures IsNameChar(s[1..][i]) {
          assert s[1..][i] == s[i + 1];
        }
      }
      if MatchesPattern(s) {
        forall i | 1 <= i < |s| ensures IsNameChar(s[i]) {
          assert s[i] == s[1..][i - 1];
        }
      }
    }
  }

  lemma {:induction false} PcreNameCharsToEndIff(s: string)
    ensures PcreNameCharsToEnd(s) <==>
      NameCharsToEnd(s) || (|s| >= 2 && s[|s| - 1] == '\n' && NameCharsToEnd(s[..|s| - 1]))
  {
    if |s| >= 1 {
      var t := s[1..];
      PcreNameCharsToEndIff(t);
      if |s| >= 2 && s[|s| - 1] == '\n' {
        assert !IsNameChar('\n');
        var u := s[..|s| - 1];
        if |s| == 2 {
          assert u == [s[0]] && t == ['\n'];
        } else {
          assert t[|t| - 1] == '\n' && t[..|t| - 1] == u[1..];
          assert u[0] == s[0];
        }
        NameCharsNoNewline(s);
      } else {
        assert |t| >= 1 ==> t[|t| - 1] == s[|s| - 1];
        if |s| >= 2 { NameCharsNoNewline(t); }
      }
    }
  }

  /** A string matched by the strict `[a-zA-Z0-9_]+$` holds no newline. */
  lemma {:induction false} NameCharsNoNewline(s: string)
    ensures NameCharsToEnd(s) ==> '\n' !in s
  {
    NameCharsToEndIff(s);
  }

  /** As written, the pattern admits the valid names and, besides them,
      every valid name followed by one newline. */
  lemma PcrePatternIff(s: string)
    ensures PcreMatchesPattern(s) <==>
      IsValidName(s) || (|s| >= 1 && s[|s| - 1] == '\n' && IsValidName(s[..|s| - 1]))
  {
    PatternMatchesIff(s);
    if |s| >= 1 {
      PcreNameCharsToEndIff(s[1..]);
      if s[|s| - 1] == '\n' {
        PatternMatchesIff(s[..|s| - 1]);
        if |s| >= 2 {
          assert s[..|s| - 1][1..] == s[1..][..|s[1..]| - 1];
          assert s[..|s| - 1][0] == s[0];
        }
      }
    }
  }

  /** The discrepancy made concrete: `"foo\n"` passes the pattern as PCRE
      reads it, although it holds a character that is neither a letter, a
      digit nor `_`. */
  lemma PcreAcceptsTrailingNewline()
    ensures PcreMatchesPattern("foo\n") && !IsValidName("foo\n")
  {
    var s := "foo\n";
    assert s[1..] == "oo\n";
    assert "oo\n"[1..] == "o\n";
    assert "o\n"[1..] == "\n";
    assert !IsNameChar(s[3]);
  }

  /** Shape facts every valid name has: at least two characters, no `/`,
      no `-`, no newline, and so never the `ext-` prefix. */
  lemma ValidNameShape(s: string)
    requires IsValidName(s)
    ensures |s| >= 2 && '/' !in s && '-' !in s && '\n' !in s
    ensures !StartsWith(s, "ext-")
  {
    if |s| >= 4 {
      assert IsNameChar(s[3]) && s[..4][3] == s[3];
    }
  }
}
