/**
 The `onwarn` hook shared by the client and the server bundles: a warning is
 swallowed when it is a missing `preload` export or a circular dependency that
 runs through the framework's own `@sapper` directory, and every other warning
 is handed to the bundler's default handler.

 The two regular expressions of the hook, `/'preload'/` and
 `/[/\\]@sapper[/\\]/`, are written in a small pattern language: a pattern is a
 sequence of character classes, and `Test` searches for it anywhere in the
 message, as `RegExp.prototype.test` does for a pattern without anchors.
 */
module Warnings {

  /** A bundler warning: its machine-readable code and its human-readable text. */
  datatype Warning = Warning(code: string, message: string)

  /** One position of a pattern: the set of characters it accepts. */
  type CharClass = set<char>

  type Pattern = seq<CharClass>

  /** The pattern that matches exactly the string `w`. */
  function Literal(w: string): (p: Pattern)
    ensures |p| == |w|
  {
    if w == [] then [] else [{w[0]}] + Literal(w[1..])
  }

  /** The two path separators the hook accepts around `@sapper`. */
  const Separator: CharClass := {'/', '\\'}

  /** `/'preload'/` */
  const PreloadPattern: Pattern := Literal("'preload'")

  /** `/[/\\]@sapper[/\\]/` */
  const SapperPattern: Pattern := [Separator] + Literal("@sapper") + [Separator]

  /** Does `p` match at the very start of `s`? */
  predicate MatchesPrefix(p: Pattern, s: string)
    decreases p
  {
    if p == [] then true
    else s != [] && s[0] in p[0] && MatchesPrefix(p[1..], s[1..])
  }

  /** The unanchored search: try every start position from left to right. */
  predicate Test(p: Pattern, s: string)
    decreases s
  {
    MatchesPrefix(p, s) || (s != [] && Test(p, s[1..]))
  }

  /** `w` occurs in `s` starting at position `i`. */
  predicate OccursAt(s: string, w: string, i: int)
  {
    0 <= i <= |s| - |w| && s[i..i + |w|] == w
  }

  /** `w` occurs in `s` as a contiguous substring. */
  ghost predicate Contains(s: string, w: string)
  {
    exists i :: OccursAt(s, w, i)
  }

  /** The message names the `@sapper` directory, each separator `/` or `\`. */
  ghost predicate MentionsSapperDir(msg: string)
  {
    || Contains(msg, "/@sapper/")
    || Contains(msg, "/@sapper\\")
    || Contains(msg, "\\@sapper/")
    || Contains(msg, "\\@sapper\\")
  }

  /** The two kinds of warning the hook suppresses. */
  ghost predicate IsSuppressed(w: Warning)
  {
    || (w.code == "MISSING_EXPORT" && Contains(w.message, "'preload'"))
    || (w.code == "CIRCULAR_DEPENDENCY" && MentionsSapperDir(w.message))
  }

  /**
   The hook. Its result lists the calls it makes to the default handler, in
   order: none for a suppressed warning, exactly one, with the warning
   unchanged, for any other.
   */
  function OnWarn(w: Warning): (forwarded: seq<Warning>)
    ensures forwarded == [] <==> IsSuppressed(w)
    ensures forwarded != [] ==> forwarded == [w]
  {
    PreloadTestMeans(w.message);
    SapperTestMeans(w.message);
    if (w.code == "MISSING_EXPORT" && Test(PreloadPattern, w.message))
      || (w.code == "CIRCULAR_DEPENDENCY" && Test(SapperPattern, w.message))
    then []
    else [w]
  }

  // ---------------------------------------------------------------------
  // The search finds a pattern exactly when it occurs somewhere.

  /** `p` matches in `s` starting at position `i`. */
  ghost predicate MatchesAt(p: Pattern, s: string, i: int)
  {
    0 <= i <= |s| && MatchesPrefix(p, s[i..])
  }

  /** The search succeeds exactly when the pattern matches at some position. */
  lemma {:induction false} TestFindsMatch(p: Pattern, s: string)
    ensures Test(p, s) <==> exists i :: MatchesAt(p, s, i)
    decreases s
  {
    assert s[0..] == s;
    if MatchesPrefix(p, s) {
      assert MatchesAt(p, s, 0);
    }
    if s != [] {
      TestFindsMatch(p, s[1..]);
      forall i | 0 <= i <= |s| - 1 ensures s[1..][i..] == s[i + 1..] { }
      if Test(p, s[1..]) {
        var i :| MatchesAt(p, s[1..], i);
        assert MatchesAt(p, s, i + 1);
      }
      if exists i :: MatchesAt(p, s, i) {
        var i :| MatchesAt(p, s, i);
        if i > 0 {
          assert s[1..][i - 1..] == s[i..];
          assert MatchesAt(p, s[1..], i - 1);
          assert Test(p, s[1..]);
        } else {
          assert MatchesPrefix(p, s);
        }
      }
    } else {
      if exists i :: MatchesAt(p, s, i) {
        var i :| MatchesAt(p, s, i);
        assert i == 0;
      }
    }
  }

  /** A pattern made of two parts matches when the first part does and the second follows it. */
  lemma {:induction false} MatchesPrefixConcat(p: Pattern, q: Pattern, s: string)
    ensures MatchesPrefix(p + q, s) <==>
      |p| <= |s| && MatchesPrefix(p, s) && MatchesPrefix(q, s[|p|..])
    decreases p
  {
    if p == [] {
      assert p + q == q;
      assert s[0..] == s;
    } else if s == [] {
    } else {
      assert (p + q)[0] == p[0];
      assert (p + q)[1..] == p[1..] + q;
      MatchesPrefixConcat(p[1..], q, s[1..]);
      if |p| <= |s| {
        assert s[1..][|p| - 1..] == s[|p|..];
      }
    }
  }

  /** A literal pattern matches at the start exactly when the string starts with it. */
  lemma {:induction false} LiteralPrefix(w: string, s: string)
    ensures MatchesPrefix(Literal(w), s) <==> |w| <= |s| && s[..|w|] == w
    decreases w
  {
    if w != [] && s != [] {
      var p := Literal(w);
      assert p[0] == {w[0]} && p[1..] == Literal(w[1..]);
      assert MatchesPrefix(p, s) <==> s[0] == w[0] && MatchesPrefix(Literal(w[1..]), s[1..]);
      LiteralPrefix(w[1..], s[1..]);
      if |w| <= |s| {
        HeadAndTail(s[..|w|], w);
        assert s[..|w|][1..] == s[1..][..|w| - 1];
      }
    }
  }

  /** Two non-empty strings are equal exactly when their heads and tails are. */
  lemma HeadAndTail(a: string, b: string)
    requires |a| == |b| > 0
    ensures a == b <==> a[0] == b[0] && a[1..] == b[1..]
  {
    if a[0] == b[0] && a[1..] == b[1..] {
      assert a == [a[0]] + a[1..] && b == [b[0]] + b[1..];
    }
  }

  /** Searching for a literal is a substring test. */
  lemma TestLiteral(w: string, s: string)
    ensures Test(Literal(w), s) <==> Contains(s, w)
  {
    TestFindsMatch(Literal(w), s);
    forall i | 0 <= i <= |s| ensures MatchesAt(Literal(w), s, i) <==> OccursAt(s, w, i) {
      LiteralPrefix(w, s[i..]);
      if |w| <= |s| - i {
        assert s[i..][..|w|] == s[i..i + |w|];
      }
    }
    if Contains(s, w) {
      var i :| OccursAt(s, w, i);
      assert MatchesAt(Literal(w), s, i);
    }
  }

  /** `/'preload'/.test(msg)` holds exactly when `'preload'` occurs in `msg`. */
  lemma PreloadTestMeans(msg: string)
    ensures Test(PreloadPattern, msg) <==> Contains(msg, "'preload'")
  {
    TestLiteral("'preload'", msg);
  }

  /** The `@sapper` pattern matches at the start exactly when a separator, `@sapper` and a separator begin the text. */
  lemma SapperPrefix(s: string)
    ensures MatchesPrefix(SapperPattern, s) <==>
      |s| >= 9 && s[0] in Separator && s[1..8] == "@sapper" && s[8] in Separator
  {
    var mid := Literal("@sapper");
    MatchesPrefixConcat([Separator] + mid, [Separator], s);
    MatchesPrefixConcat([Separator], mid, s);
    if |s| >= 9 {
      LiteralPrefix("@sapper", s[1..]);
      assert s[1..][..7] == s[1..8];
      assert s[8..] == s[8..][..1] + s[9..];
    }
  }

  /** The four spellings of the `@sapper` directory with its separators. */
  const SapperSpellings: set<string> := {"/@sapper/", "/@sapper\\", "\\@sapper/", "\\@sapper\\"}

  /** Choosing each separator from `/` and `\` gives exactly the four spellings. */
  lemma SeparatorChoices(t: string)
    requires |t| == 9
    ensures (t[0] in Separator && t[1..8] == "@sapper" && t[8] in Separator) <==>
      t in SapperSpellings
  {
    if t[0] in Separator && t[1..8] == "@sapper" && t[8] in Separator {
      assert t == [t[0]] + t[1..8] + [t[8]];
      if t[0] == '/' {
        if t[8] == '/' { assert t == "/@sapper/"; } else { assert t == "/@sapper\\"; }
      } else {
        if t[8] == '/' { assert t == "\\@sapper/"; } else { assert t == "\\@sapper\\"; }
      }
    }
  }

  /** The `@sapper` pattern matches at `i` exactly when one of the four spellings starts there. */
  lemma SapperAt(msg: string, i: int)
    requires 0 <= i <= |msg| - 9
    ensures MatchesAt(SapperPattern, msg, i) <==> OccursAt(msg, msg[i..i + 9], i) && msg[i..i + 9] in SapperSpellings
  {
    SapperPrefix(msg[i..]);
    assert msg[i..][..9] == msg[i..i + 9];
    SeparatorChoices(msg[i..i + 9]);
  }

  /** `/[/\\]@sapper[/\\]/.test(msg)` holds exactly when one of the four spellings occurs. */
  lemma SapperTestMeans(msg: string)
    ensures Test(SapperPattern, msg) <==> MentionsSapperDir(msg)
  {
    TestFindsMatch(SapperPattern, msg);
    if Test(SapperPattern, msg) {
      var i :| MatchesAt(SapperPattern, msg, i);
      SapperPrefix(msg[i..]);
      SapperAt(msg, i);
      assert OccursAt(msg, msg[i..i + 9], i);
    }
    if MentionsSapperDir(msg) {
      var w :| w in SapperSpellings && Contains(msg, w);
      assert Contains(msg, w);
      assert exists j :: OccursAt(msg, w, j);
      var i :| OccursAt(msg, w, i);
      assert |w| == 9;
      assert msg[i..i + 9] == w;
      SapperAt(msg, i);
    }
  }
}
