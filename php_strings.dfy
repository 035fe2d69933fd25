/** The PHP string built-ins the extension-name logic relies on:
    `str_starts_with` and `explode` (with `implode`, its inverse). */
module PhpStrings {

  /** `str_starts_with($s, $prefix)`. */
  predicate StartsWith(s: string, prefix: string) {
    |prefix| <= |s| && s[..|prefix|] == prefix
  }

  /** Number of occurrences of the character `c` in `s`. */
  function Occurrences(c: char, s: string): nat {
    if s == [] then 0 else (if s[0] == c then 1 else 0) + Occurrences(c, s[1..])
  }

  /** `explode($sep, $s)` for a one-character separator and no limit: the
      pieces of `s` between the separators, in order. There is always one
      more piece than there are separators, so `explode('/', "")` is `[""]`
      and `explode('/', "/pkg")` is `["", "pkg"]`. */
  function Explode(sep: char, s: string): (parts: seq<string>)
    ensures |parts| == Occurrences(sep, s) + 1
    ensures forall i :: 0 <= i < |parts| ==> sep !in parts[i]
  {
    if s == [] then [[]]
    else
      var rest := Explode(sep, s[1..]);
      if s[0] == sep then [[]] + rest
      else [[s[0]] + rest[0]] + rest[1..]
  }

  /** `implode($sep, $parts)`: the pieces joined with the separator between them. */
  function Implode(sep: char, parts: seq<string>): string {
    if |parts| == 0 then []
    else if |parts| == 1 then parts[0]
    else parts[0] + [sep] + Implode(sep, parts[1..])
  }

  /** Joining the pieces again gives back the exploded string. */
  lemma {:induction false} ImplodeExplode(sep: char, s: string)
    ensures Implode(sep, Explode(sep, s)) == s
  {
    if s != [] {
      var rest := Explode(sep, s[1..]);
      ImplodeExplode(sep, s[1..]);
      if s[0] == sep {
        assert Explode(sep, s) == [[]] + rest;
        assert Implode(sep, [[]] + rest) == [] + [sep] + Implode(sep, rest) by {
          assert ([[]] + rest)[1..] == rest;
        }
        assert s == [s[0]] + s[1..];
      } else if |rest| == 1 {
        assert Explode(sep, s) == [[s[0]] + rest[0]];
        assert s == [s[0]] + s[1..];
      } else {
        var parts := [[s[0]] + rest[0]] + rest[1..];
        assert Explode(sep, s) == parts;
        assert parts[1..] == rest[1..];
        assert Implode(sep, parts) == [s[0]] + rest[0] + [sep] + Implode(sep, rest[1..]);
        assert Implode(sep, rest) == rest[0] + [sep] + Implode(sep, rest[1..]);
        assert s == [s[0]] + s[1..];
      }
    }
  }

  /** Exploding a separator-free prefix `w` followed by `t` glues `w` onto
      the first piece of `t`. */
  lemma {:induction false} ExplodeFreePrefix(sep: char, w: string, t: string)
    requires sep !in w
    ensures Explode(sep, w + t) == [w + Explode(sep, t)[0]] + Explode(sep, t)[1..]
  {
    if w != [] {
      ExplodeFreePrefix(sep, w[1..], t);
      assert w + t == [w[0]] + (w[1..] + t);
      assert (w + t)[0] == w[0] != sep;
      assert (w + t)[1..] == w[1..] + t;
      var e, r := Explode(sep, t), Explode(sep, w[1..] + t);
      assert Explode(sep, w + t) == [[w[0]] + r[0]] + r[1..];
      assert r[0] == w[1..] + e[0] && r[1..] == e[1..];
      assert [w[0]] + (w[1..] + e[0]) == w + e[0];
    } else {
      var e := Explode(sep, t);
      assert w + t == t && w + e[0] == e[0];
      assert e == [e[0]] + e[1..];
    }
  }

  /** Exploding separator-free pieces joined with the separator gives the pieces back. */
  lemma {:induction false} ExplodeImplode(sep: char, parts: seq<string>)
    requires |parts| >= 1
    requires forall i :: 0 <= i < |parts| ==> sep !in parts[i]
    ensures Explode(sep, Implode(sep, parts)) == parts
  {
    if |parts| == 1 {
      ExplodeFreePrefix(sep, parts[0], []);
      assert parts[0] + [] == parts[0];
    } else {
      var tail := Implode(sep, parts[1..]);
      ExplodeImplode(sep, parts[1..]);
      assert Implode(sep, parts) == parts[0] + ([sep] + tail);
      ExplodeFreePrefix(sep, parts[0], [sep] + tail);
      assert ([sep] + tail)[1..] == tail;
      var x := Explode(sep, [sep] + tail);
      assert x == [[]] + parts[1..];
      assert x[0] == [] && x[1..] == parts[1..];
      assert parts[0] + x[0] == parts[0];
      assert parts == [parts[0]] + parts[1..];
    }
  }

  /** `explode` yields exactly two pieces precisely for `vendor<sep>package`
      with separator-free parts, and then the pieces are those parts. */
  lemma ExplodeTwoPieces(sep: char, vendor: string, package: string)
    requires sep !in vendor && sep !in package
    ensures Explode(sep, vendor + [sep] + package) == [vendor, package]
  {
    ExplodeImplode(sep, [vendor, package]);
    assert Implode(sep, [vendor, package]) == vendor + [sep] + package by {
      assert [vendor, package][1..] == [package];
    }
  }

  /** Conversely, two pieces mean the string is the first piece, one
      separator, and the second piece. */
  lemma ExplodeTwoPiecesShape(sep: char, s: string)
    requires |Explode(sep, s)| == 2
    ensures s == Explode(sep, s)[0] + [sep] + Explode(sep, s)[1]
  {
    var parts := Explode(sep, s);
    ImplodeExplode(sep, s);
    assert parts[1..] == [parts[1]];
  }
}
