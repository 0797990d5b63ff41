/**
 The wildcard matcher of recomp-runtime/directory_model.c: one pass over the name
 that only ever goes back to the last star, against the recursive definition of
 what a pattern means.
 */
module Glob {
  import opened MachineWords

  /** What a pattern means: a star stands for any run, another character for
      itself in either case. */
  predicate Match(p: string, n: string)
    decreases |p| + |n|
  {
    if p == "" then n == ""
    else if p[0] == '*' then Match(p[1..], n) || (n != "" && Match(p, n[1..]))
    else n != "" && Fold(p[0]) == Fold(n[0]) && Match(p[1..], n[1..])
  }

  /** Everything matches no pattern, the empty one and `*.*`. */
  predicate Accepts(pattern: Option<string>, name: string) {
    pattern.None? || pattern.value == "" || pattern.value == "*.*" || Match(pattern.value, name)
  }

  /** Nothing to match by, or nothing that excludes: everything is accepted; any other
      pattern decides by itself. */
  lemma AcceptsAll(name: string)
    ensures Accepts(None, name) && Accepts(Some(""), name) && Accepts(Some("*.*"), name)
    ensures forall p :: p != "" && p != "*.*" ==> (Accepts(Some(p), name) <==> Match(p, name))
  {
  }

  /** A character of the pattern other than a star takes one of the name. */
  lemma CharacterFirst(p: string, n: string)
    requires p != "" && p[0] != '*'
    ensures Match(p, n) <==> n != "" && SameLetter(p[0], n[0]) && Match(p[1..], n[1..])
  {
    if n != "" { FoldTells(p[0], n[0]); }
  }

  /** A pattern without a star is the name itself, up to case. */
  lemma {:induction false} PlainPattern(p: string, n: string)
    requires forall i :: 0 <= i < |p| ==> p[i] != '*'
    ensures Match(p, n) <==> |p| == |n| && forall i :: 0 <= i < |p| ==> SameLetter(p[i], n[i])
    decreases |p|
  {
    if p != "" && n != "" {
      CharacterFirst(p, n);
      PlainPattern(p[1..], n[1..]);
      assert forall i :: 0 < i < |p| && |p| == |n| ==> p[i] == p[1..][i - 1] && n[i] == n[1..][i - 1];
      if |p| == |n| && forall i :: 0 <= i < |p| ==> SameLetter(p[i], n[i]) {
        forall i | 0 <= i < |p| - 1 ensures SameLetter(p[1..][i], n[1..][i]) {
          assert SameLetter(p[i + 1], n[i + 1]);
        }
      }
    }
  }

  predicate MatchFrom(p: string, n: string, k: nat) {
    k <= |n| && Match(p, n[k..])
  }

  lemma {:induction false} StarIsAnyRun(p: string, n: string)
    requires p != "" && p[0] == '*'
    ensures Match(p, n) <==> exists k: nat :: MatchFrom(p[1..], n, k)
    decreases |n|
  {
    assert n[0..] == n;
    if n == "" {
      if exists k: nat :: MatchFrom(p[1..], n, k) {
        var k: nat :| MatchFrom(p[1..], n, k);
        assert k == 0;
      } else {
        assert !MatchFrom(p[1..], n, 0);
      }
    } else {
      StarIsAnyRun(p, n[1..]);
      if Match(p[1..], n) {
        assert MatchFrom(p[1..], n, 0);
      } else if Match(p, n[1..]) {
        var k: nat :| MatchFrom(p[1..], n[1..], k);
        assert n[1..][k..] == n[k + 1..];
        assert MatchFrom(p[1..], n, k + 1);
      }
      if exists k: nat :: MatchFrom(p[1..], n, k) {
        var k: nat :| MatchFrom(p[1..], n, k);
        if k > 0 {
          assert n[1..][k - 1..] == n[k..];
          assert MatchFrom(p[1..], n[1..], k - 1);
        }
      }
    }
  }

  predicate NoStars(p: string) {
    forall i :: 0 <= i < |p| ==> p[i] != '*'
  }

  /** Characters before any star can only match the beginning. */
  lemma {:induction false} LiteralsFirst(p: string, n: string, count: nat)
    requires count <= |p| && NoStars(p[..count]) && Match(p, n)
    ensures count <= |n| && Match(p[count..], n[count..])
    decreases count
  {
    if count > 0 {
      assert p[..count][0] == p[0];
      assert forall i :: 0 <= i < count - 1 ==> p[1..][i] == p[..count][i + 1];
      LiteralsFirst(p[1..], n[1..], count - 1);
      assert p[1..][count - 1..] == p[count..] && n[1..][count - 1..] == n[count..];
    } else {
      assert p[0..] == p && n[0..] == n;
    }
  }

  /** Some later place for what follows the last star. */
  ghost predicate Later(p: string, n: string, afterStar: nat, starName: nat) {
    afterStar <= |p| && exists k: nat :: k > starName && MatchFrom(p[afterStar..], n, k)
  }

  /** The characters between the last star and here have been matched. */
  predicate Between(p: string, n: string, afterStar: nat, starName: nat, pi: nat, ni: nat) {
    && afterStar <= pi <= |p| && starName <= ni <= |n| && pi - afterStar == ni - starName
    && NoStars(p[afterStar..pi])
  }

  /** A match further on gets past the characters since the star too. */
  lemma LaterGetsHere(p: string, n: string, afterStar: nat, starName: nat, pi: nat, ni: nat)
    requires Between(p, n, afterStar, starName, pi, ni) && Later(p, n, afterStar, starName)
    ensures exists k: nat :: k > ni && MatchFrom(p[pi..], n, k)
  {
    var k: nat :| k > starName && MatchFrom(p[afterStar..], n, k);
    var count := pi - afterStar;
    assert p[afterStar..][..count] == p[afterStar..pi];
    LiteralsFirst(p[afterStar..], n[k..], count);
    assert p[afterStar..][count..] == p[pi..] && n[k..][count..] == n[k + count..];
    assert MatchFrom(p[pi..], n, k + count);
  }

  /** At a new star the old one can be forgotten. */
  lemma NewStar(p: string, n: string, star: bool, afterStar: nat, starName: nat, pi: nat, ni: nat)
    requires pi < |p| && p[pi] == '*' && ni <= |n|
    requires star ==> Between(p, n, afterStar, starName, pi, ni)
    ensures Match(p[pi..], n[ni..]) || (star && Later(p, n, afterStar, starName))
       <==> Match(p[pi + 1..], n[ni..]) || Later(p, n, pi + 1, ni)
  {
    var rest := p[pi + 1..];
    assert p[pi..][1..] == rest;
    StarIsAnyRun(p[pi..], n[ni..]);
    if star && Later(p, n, afterStar, starName) {
      LaterGetsHere(p, n, afterStar, starName, pi, ni);
      var k: nat :| k > ni && MatchFrom(p[pi..], n, k);
      StarIsAnyRun(p[pi..], n[k..]);
      var j: nat :| MatchFrom(rest, n[k..], j);
      assert n[k..][j..] == n[k + j..];
      assert MatchFrom(rest, n, k + j);
    }
    if Match(p[pi..], n[ni..]) {
      var k: nat :| MatchFrom(rest, n[ni..], k);
      assert n[ni..][k..] == n[ni + k..];
      assert MatchFrom(rest, n, ni + k);
    }
    if Later(p, n, pi + 1, ni) {
      var k: nat :| k > ni && MatchFrom(rest, n, k);
      assert n[ni..][k - ni..] == n[k..];
      assert MatchFrom(rest, n[ni..], k - ni);
    }
    if Match(rest, n[ni..]) {
      assert n[ni..][0..] == n[ni..];
      assert MatchFrom(rest, n[ni..], 0);
    }
  }

  /** A star may also take one character more. */
  lemma GoBack(p: string, n: string, afterStar: nat, starName: nat)
    requires afterStar <= |p| && starName < |n|
    ensures Later(p, n, afterStar, starName)
       <==> Match(p[afterStar..], n[starName + 1..]) || Later(p, n, afterStar, starName + 1)
  {
    if Match(p[afterStar..], n[starName + 1..]) {
      assert MatchFrom(p[afterStar..], n, starName + 1);
    }
  }

  /** Nothing later can match when the characters since the star took all the
      name. */
  lemma NoRoom(p: string, n: string, afterStar: nat, starName: nat, pi: nat)
    requires Between(p, n, afterStar, starName, pi, |n|)
    ensures !Later(p, n, afterStar, starName)
  {
    if Later(p, n, afterStar, starName) {
      LaterGetsHere(p, n, afterStar, starName, pi, |n|);
    }
  }

  /** At the end of the name only stars may be left. */
  method OnlyStarsLeft(p: string, start: nat) returns (ok: bool)
    requires start <= |p|
    ensures ok <==> Match(p[start..], "")
  {
    var pi := start;
    while pi < |p| && p[pi] == '*'
      invariant start <= pi <= |p|
      invariant Match(p[start..], "") <==> Match(p[pi..], "")
    {
      assert p[pi..][1..] == p[pi + 1..];
      pi := pi + 1;
    }
    return pi == |p|;
  }

  method PatternMatches(pattern: Option<string>, name: string) returns (ok: bool)
    ensures ok <==> Accepts(pattern, name)
  {
    if pattern.None? || pattern.value == "" || pattern.value == "*.*" { return true; }
    var p := pattern.value;
    var pi, ni := 0, 0;
    var star, afterStar, starName := false, 0, 0;
    assert p[0..] == p && name[0..] == name;
    while ni < |name|
      invariant pi <= |p| && ni <= |name|
      invariant star ==> Between(p, name, afterStar, starName, pi, ni)
      invariant Match(p, name) <==> Match(p[pi..], name[ni..]) || (star && Later(p, name, afterStar, starName))
      decreases if star then |p| - afterStar else |p| + 1, |name| - starName, |name| - ni
    {
      if pi < |p| && p[pi] == '*' {
        NewStar(p, name, star, afterStar, starName, pi, ni);
        pi := pi + 1;
        star, afterStar, starName := true, pi, ni;
      } else if pi < |p| && Fold(p[pi]) == Fold(name[ni]) {
        assert p[pi..][1..] == p[pi + 1..] && name[ni..][1..] == name[ni + 1..];
        assert star ==> p[afterStar..pi + 1] == p[afterStar..pi] + [p[pi]];
        pi, ni := pi + 1, ni + 1;
      } else if star {
        GoBack(p, name, afterStar, starName);
        starName := starName + 1;
        pi, ni := afterStar, starName;
      } else {
        return false;
      }
    }
    if star { NoRoom(p, name, afterStar, starName, pi); }
    assert name[ni..] == "";
    ok := OnlyStarsLeft(p, pi);
  }
}
