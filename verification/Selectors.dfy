/** Which detections a selector pattern names (`crates/rsigma-parser/src/selector.rs`). */
module Selectors {
  import opened SigmaIr

  // ----- Globs: one star stands for any text -----

  lemma FirstStarIs(a: string, b: string)
    requires '*' !in a
    ensures FirstStar(a + "*" + b) == |a|
  {
    assert (a + "*" + b)[|a|] == '*';
    assert forall k | 0 <= k < |a| :: (a + "*" + b)[k] == a[k];
  }

  /** A name is a prefix, some middle and a suffix. */
  ghost predicate Between(prefix: string, suffix: string, name: string) {
    exists middle: string :: name == prefix + middle + suffix
  }

  lemma BetweenIs(prefix: string, suffix: string, name: string)
    ensures Between(prefix, suffix, name)
            <==> |name| >= |prefix| + |suffix| && prefix <= name && HasSuffix(name, suffix)
  {
    if |name| >= |prefix| + |suffix| && prefix <= name && HasSuffix(name, suffix) {
      var middle := name[|prefix|..|name| - |suffix|];
      assert name == prefix + middle + suffix;
    }
    if middle: string :| name == prefix + middle + suffix {
      assert name[|name| - |suffix|..] == suffix;
    }
  }

  /** Without a star it matches exactly itself. */
  lemma {:induction false} NoStarMatches(glob: string, name: string)
    requires '*' !in glob
    ensures DetectionNameMatches(glob, name) <==> name == glob
  {
    if glob != [] {
      assert glob[|glob| - 1] in glob && glob[0] in glob;
      assert FirstStar(glob) == |glob|;
    }
  }

  /** Of several stars only one is special: the last if it ends the glob. */
  lemma LastStarMatches(a: string, name: string)
    ensures DetectionNameMatches(a + "*", name) <==> exists rest: string :: name == a + rest
  {
    assert (a + "*")[..|a|] == a;
    if a <= name { assert name == a + name[|a|..]; }
  }

  /** Else the first, which may stand at the start or after a text without stars. */
  lemma FirstStarMatches(a: string, b: string, name: string)
    requires '*' !in a && b != [] && b[|b| - 1] != '*'
    ensures DetectionNameMatches(a + "*" + b, name) <==> exists middle: string :: name == a + middle + b
  {
    var glob := a + "*" + b;
    FirstStarIs(a, b);
    BetweenIs(a, b, name);
    assert glob[|glob| - 1] == b[|b| - 1] && glob[..|a|] == a && glob[|a| + 1..] == b;
    if a != [] {
      assert glob[0] == a[0] && a[0] in a;
    }
    assert Between(a, b, name) <==> exists middle: string :: name == a + middle + b;
  }

  /** Main result: a glob with one star matches exactly the names with any text in its place. */
  lemma GlobMatches(a: string, b: string, name: string)
    requires '*' !in a && '*' !in b
    ensures DetectionNameMatches(a + "*" + b, name) <==> exists middle: string :: name == a + middle + b
  {
    if b == [] {
      assert a + "*" + b == a + "*";
      LastStarMatches(a, name);
      if rest: string :| name == a + rest { assert name == a + rest + b; }
      if middle: string :| name == a + middle + b { assert name == a + middle; }
    } else {
      assert b[|b| - 1] in b;
      FirstStarMatches(a, b, name);
    }
  }

  // ----- Hidden names -----

  /** A name with a leading underscore is selected by no `them`, and only by a glob that starts with one. */
  lemma HiddenNames(pattern: SelectorPattern, name: string)
    requires name != [] && name[0] == '_'
    ensures MatchesDetectionName(pattern, name)
            <==> pattern.Glob? && pattern.glob != [] && pattern.glob[0] == '_' && DetectionNameMatches(pattern.glob, name)
  {
  }

  /** Any other name is selected by `them`, and by every glob that matches it. */
  lemma VisibleNames(pattern: SelectorPattern, name: string)
    requires name == [] || name[0] != '_'
    ensures MatchesDetectionName(pattern, name) <==> (pattern.Glob? ==> DetectionNameMatches(pattern.glob, name))
  {
  }
}
