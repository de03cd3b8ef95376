/** SQLite's `LIKE` operator as the key-pattern operations use it: no ESCAPE
    clause, `%` matches any run of characters (possibly empty), `_` matches
    exactly one character, and every other pattern character matches one key
    character up to ASCII-only case folding (`A` matches `a`, `Ä` does not
    match `ä`). */
module SqlLike {

  /** Folds the 26 upper-case ASCII letters to lower case; nothing else. */
  function Fold(c: char): (r: char)
    ensures !('A' <= r <= 'Z')
    ensures 'A' <= c <= 'Z' ==> 'a' <= r <= 'z' && r as int - c as int == 'a' as int - 'A' as int
    ensures !('A' <= c <= 'Z') ==> r == c
  {
    if 'A' <= c <= 'Z' then (c as int + 32) as char else c
  }

  /** How many key characters a pattern consumes at least: one for each
      pattern character other than `%`. */
  function Consumed(p: string): (n: nat)
    ensures n <= |p|
    decreases |p|
  {
    if p == [] then 0 else (if p[0] == '%' then 0 else 1) + Consumed(p[1..])
  }

  /** `s LIKE p`. A key matched by `p` has at least as many characters as
      `p` has non-`%` characters, and exactly as many as `p` when `p` holds
      no `%`. */
  predicate Like(s: string, p: string)
    ensures Like(s, p) ==> Consumed(p) <= |s|
    ensures Like(s, p) && Consumed(p) == |p| ==> |s| == |p|
    decreases |s| + |p|
  {
    if p == [] then s == []
    else if p[0] == '%' then Like(s, p[1..]) || (s != [] && Like(s[1..], p))
    else s != [] && (p[0] == '_' || Fold(p[0]) == Fold(s[0])) && Like(s[1..], p[1..])
  }

  /** Some prefix of `s` matches `p`. */
  ghost predicate PrefixMatches(s: string, p: string)
  {
    exists i :: 0 <= i <= |s| && Like(s[..i], p)
  }

  /** Some suffix of `s` matches `p`. */
  ghost predicate SuffixMatches(s: string, p: string)
  {
    exists i :: 0 <= i <= |s| && Like(s[i..], p)
  }

  /** Some contiguous piece of `s` matches `p`. */
  ghost predicate InfixMatches(s: string, p: string)
  {
    exists i, j :: 0 <= i <= j <= |s| && Like(s[i..j], p)
  }

  /** A pattern with neither wildcard. */
  predicate NoWildcards(p: string)
  {
    forall i :: 0 <= i < |p| ==> p[i] != '%' && p[i] != '_'
  }

  /** Equal length and equal character by character after ASCII folding. */
  predicate FoldEqual(a: string, b: string)
  {
    |a| == |b| && forall i :: 0 <= i < |a| ==> Fold(a[i]) == Fold(b[i])
  }

  /** The empty pattern matches the empty key and nothing else. */
  lemma EmptyPatternMatchesOnlyEmpty(s: string)
    ensures Like(s, "") <==> s == ""
  {
  }

  /** `%` alone matches every string. */
  lemma {:induction false} PercentMatchesAll(s: string)
    ensures Like(s, "%")
    decreases |s|
  {
    if s != [] {
      PercentMatchesAll(s[1..]);
    }
  }

  /** A concatenated pattern matches exactly when the key splits into a part
      matching the first half followed by a part matching the second. */
  lemma {:induction false} LikeConcat(s: string, p: string, q: string)
    ensures Like(s, p + q) <==> exists i :: 0 <= i <= |s| && Like(s[..i], p) && Like(s[i..], q)
    decreases |s| + |p|, 2
  {
    if p == [] {
      assert p + q == q;
      if Like(s, q) {
        assert s[..0] == [] && s[0..] == s;
      }
      forall i | 0 <= i <= |s| && Like(s[..i], p) && Like(s[i..], q)
        ensures Like(s, p + q)
      {
        assert |s[..i]| == i;
        assert s[i..] == s;
      }
    } else if p[0] == '%' {
      LikeConcatPercent(s, p, q);
    } else {
      LikeConcatLiteral(s, p, q);
    }
  }

  /** `LikeConcat` when `p` starts with `%`. */
  lemma {:induction false} LikeConcatPercent(s: string, p: string, q: string)
    requires p != [] && p[0] == '%'
    ensures Like(s, p + q) <==> exists i :: 0 <= i <= |s| && Like(s[..i], p) && Like(s[i..], q)
    decreases |s| + |p|, 1
  {
    if Like(s, p + q) {
      PercentConcatSplits(s, p, q);
    }
    if exists i :: 0 <= i <= |s| && Like(s[..i], p) && Like(s[i..], q) {
      PercentConcatJoins(s, p, q);
    }
  }

  lemma {:induction false} PercentConcatSplits(s: string, p: string, q: string)
    requires p != [] && p[0] == '%' && Like(s, p + q)
    ensures exists i :: 0 <= i <= |s| && Like(s[..i], p) && Like(s[i..], q)
    decreases |s| + |p|, 0
  {
    assert (p + q)[0] == '%';
    assert (p + q)[1..] == p[1..] + q;
    if Like(s, p[1..] + q) {
      LikeConcat(s, p[1..], q);
      var i :| 0 <= i <= |s| && Like(s[..i], p[1..]) && Like(s[i..], q);
      assert Like(s[..i], p);
    } else {
      assert s != [] && Like(s[1..], p + q);
      LikeConcat(s[1..], p, q);
      var i :| 0 <= i <= |s[1..]| && Like(s[1..][..i], p) && Like(s[1..][i..], q);
      assert s[..i + 1][1..] == s[1..][..i];
      assert s[i + 1..] == s[1..][i..];
      assert Like(s[..i + 1], p);
    }
  }

  lemma {:induction false} PercentConcatJoins(s: string, p: string, q: string)
    requires p != [] && p[0] == '%'
    requires exists i :: 0 <= i <= |s| && Like(s[..i], p) && Like(s[i..], q)
    ensures Like(s, p + q)
    decreases |s| + |p|, 0
  {
    assert (p + q)[0] == '%';
    assert (p + q)[1..] == p[1..] + q;
    var i :| 0 <= i <= |s| && Like(s[..i], p) && Like(s[i..], q);
    if Like(s[..i], p[1..]) {
      LikeConcat(s, p[1..], q);
    } else {
      assert s[..i] != [] && Like(s[..i][1..], p);
      assert s[..i][1..] == s[1..][..i - 1];
      assert s[i..] == s[1..][i - 1..];
      LikeConcat(s[1..], p, q);
      assert Like(s[1..], p + q);
    }
  }

  /** `LikeConcat` when `p` starts with a character other than `%`. */
  lemma {:induction false} LikeConcatLiteral(s: string, p: string, q: string)
    requires p != [] && p[0] != '%'
    ensures Like(s, p + q) <==> exists i :: 0 <= i <= |s| && Like(s[..i], p) && Like(s[i..], q)
    decreases |s| + |p|, 0
  {
    assert (p + q)[0] == p[0];
    assert (p + q)[1..] == p[1..] + q;
    if s != [] {
      LikeConcat(s[1..], p[1..], q);
      if Like(s, p + q) {
        var i :| 0 <= i <= |s[1..]| && Like(s[1..][..i], p[1..]) && Like(s[1..][i..], q);
        assert s[..i + 1][1..] == s[1..][..i];
        assert s[i + 1..] == s[1..][i..];
        assert Like(s[..i + 1], p);
      }
      if exists i :: 0 <= i <= |s| && Like(s[..i], p) && Like(s[i..], q) {
        var i :| 0 <= i <= |s| && Like(s[..i], p) && Like(s[i..], q);
        assert s[..i][1..] == s[1..][..i - 1];
        assert s[i..] == s[1..][i - 1..];
      }
    }
  }

  /** `find_keys_starting_with(p)` queries `p%`: some prefix of the key matches `p`. */
  lemma StartsWithPattern(s: string, p: string)
    ensures Like(s, p + "%") <==> PrefixMatches(s, p)
  {
    LikeConcat(s, p, "%");
    forall i | 0 <= i <= |s|
      ensures Like(s[i..], "%")
    {
      PercentMatchesAll(s[i..]);
    }
  }

  /** `find_keys_ending_with(p)` queries `%p`: some suffix of the key matches `p`. */
  lemma EndsWithPattern(s: string, p: string)
    ensures Like(s, "%" + p) <==> SuffixMatches(s, p)
  {
    LikeConcat(s, "%", p);
    forall i | 0 <= i <= |s|
      ensures Like(s[..i], "%")
    {
      PercentMatchesAll(s[..i]);
    }
  }

  /** `find_keys_containing(p)` queries `%p%`: some piece of the key matches `p`. */
  lemma ContainsPattern(s: string, p: string)
    ensures Like(s, "%" + p + "%") <==> InfixMatches(s, p)
  {
    StartsWithPattern(s, "%" + p);
    if Like(s, "%" + p + "%") {
      var j :| 0 <= j <= |s| && Like(s[..j], "%" + p);
      EndsWithPattern(s[..j], p);
      var i :| 0 <= i <= |s[..j]| && Like(s[..j][i..], p);
      assert s[..j][i..] == s[i..j];
    }
    if InfixMatches(s, p) {
      var i, j :| 0 <= i <= j <= |s| && Like(s[i..j], p);
      assert s[..j][i..] == s[i..j];
      EndsWithPattern(s[..j], p);
      assert Like(s[..j], "%" + p);
    }
  }

  /** Without wildcards, `LIKE` is equality up to ASCII case folding. */
  lemma {:induction false} LiteralLike(s: string, p: string)
    requires NoWildcards(p)
    ensures Like(s, p) <==> FoldEqual(s, p)
    decreases |p|
  {
    if p != [] && s != [] {
      assert NoWildcards(p[1..]) by {
        forall i | 0 <= i < |p[1..]| ensures p[1..][i] != '%' && p[1..][i] != '_' {
          assert p[1..][i] == p[i + 1];
        }
      }
      LiteralLike(s[1..], p[1..]);
      if FoldEqual(s[1..], p[1..]) && Fold(s[0]) == Fold(p[0]) {
        forall i | 0 <= i < |s| ensures Fold(s[i]) == Fold(p[i]) {
          if i > 0 {
            assert s[1..][i - 1] == s[i] && p[1..][i - 1] == p[i];
          }
        }
      }
      if FoldEqual(s, p) {
        forall i | 0 <= i < |s[1..]| ensures Fold(s[1..][i]) == Fold(p[1..][i]) {
          assert s[1..][i] == s[i + 1] && p[1..][i] == p[i + 1];
        }
      }
    }
  }

  /** Starting with a literal `p`, up to ASCII case. */
  lemma StartsWithLiteral(s: string, p: string)
    requires NoWildcards(p)
    ensures Like(s, p + "%") <==> |p| <= |s| && FoldEqual(s[..|p|], p)
  {
    StartsWithPattern(s, p);
    if PrefixMatches(s, p) {
      var i :| 0 <= i <= |s| && Like(s[..i], p);
      LiteralLike(s[..i], p);
      assert i == |p|;
    }
    if |p| <= |s| && FoldEqual(s[..|p|], p) {
      LiteralLike(s[..|p|], p);
    }
  }

  /** Ending with a literal `p`, up to ASCII case. */
  lemma EndsWithLiteral(s: string, p: string)
    requires NoWildcards(p)
    ensures Like(s, "%" + p) <==> |p| <= |s| && FoldEqual(s[|s| - |p|..], p)
  {
    EndsWithPattern(s, p);
    if SuffixMatches(s, p) {
      var i :| 0 <= i <= |s| && Like(s[i..], p);
      LiteralLike(s[i..], p);
      assert i == |s| - |p|;
    }
    if |p| <= |s| && FoldEqual(s[|s| - |p|..], p) {
      LiteralLike(s[|s| - |p|..], p);
    }
  }

  /** The folding is ASCII-only: upper-case letters match their lower-case
      forms, `Ä` does not match `ä`. */
  lemma AsciiOnlyCaseFolding()
    ensures Like("FOO.foo", "foo%") && Like("BAR.FOO", "%foo")
    ensures !Like("\U{00C4}", "\U{00E4}")
  {
    UpperPrefixMatches();
    UpperSuffixMatches();
    assert Fold('\U{00C4}') != Fold('\U{00E4}');
  }

  lemma UpperPrefixMatches()
    ensures Like("FOO.foo", "foo%")
  {
    StartsWithLiteral("FOO.foo", "foo");
  }

  lemma UpperSuffixMatches()
    ensures Like("BAR.FOO", "%foo")
  {
    EndsWithLiteral("BAR.FOO", "foo");
  }
}
