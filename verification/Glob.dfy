/**
 Matching a path component against a pattern with '*' and '?': the matcher used for automatic
 mounts, which keeps one backtracking point, against the recursive definition of a match.
 */
module Glob {

  /** '*' stands for any run of characters, '?' for any single one. */
  predicate Matches(pat: string, name: string)
    decreases |pat|, |name|
  {
    if pat == "" then name == ""
    else if pat[0] == '*' then Matches(pat[1..], name) || (name != "" && Matches(pat, name[1..]))
    else name != "" && (pat[0] == '?' || pat[0] == name[0]) && Matches(pat[1..], name[1..])
  }

  /** pat matches name from some position k on. */
  ghost predicate MatchesFrom(pat: string, name: string, from: nat) {
    exists k :: from <= k <= |name| && Matches(pat, name[k..])
  }

  predicate HasStar(s: string) { '*' in s }

  lemma {:induction false} StarSkips(pat: string, name: string)
    requires pat != "" && pat[0] == '*'
    ensures Matches(pat, name) <==> MatchesFrom(pat[1..], name, 0)
    decreases |name|
  {
    if name == "" {
      assert name[0..] == name;
    } else {
      StarSkips(pat, name[1..]);
      assert name[0..] == name;
      if MatchesFrom(pat[1..], name[1..], 0) {
        var k :| 0 <= k <= |name[1..]| && Matches(pat[1..], name[1..][k..]);
        assert name[1..][k..] == name[k + 1..];
      }
      if MatchesFrom(pat[1..], name, 0) && !Matches(pat[1..], name) {
        var k :| 0 <= k <= |name| && Matches(pat[1..], name[k..]);
        assert name[1..][k - 1..] == name[k..];
      }
    }
  }

  /** A prefix without '*' takes exactly as many characters as it has. */
  lemma {:induction false} SegmentTakes(pat: string, name: string, m: nat)
    requires m <= |pat| && !HasStar(pat[..m]) && Matches(pat, name)
    ensures m <= |name| && Matches(pat[m..], name[m..])
    decreases m
  {
    if m == 0 {
      assert pat[0..] == pat && name[0..] == name;
    } else {
      assert pat[0] == pat[..m][0];
      assert pat[1..][..m - 1] == pat[..m][1..];
      SegmentTakes(pat[1..], name[1..], m - 1);
      assert pat[1..][m - 1..] == pat[m..] && name[1..][m - 1..] == name[m..];
    }
  }

  /** From a second star on, the first one cannot help: its matches lead through the second. */
  lemma LaterStarSubsumes(pat: string, name: string, si: nat, sj: nat, i: nat, j: nat)
    requires si <= i < |pat| && sj <= j <= |name| && i - si == j - sj
    requires pat[i] == '*' && !HasStar(pat[si..i]) && MatchesFrom(pat[si..], name, sj + 1)
    ensures MatchesFrom(pat[i + 1..], name, j)
  {
    var k :| sj + 1 <= k <= |name| && Matches(pat[si..], name[k..]);
    var m := i - si;
    assert pat[si..][..m] == pat[si..i];
    SegmentTakes(pat[si..], name[k..], m);
    assert pat[si..][m..] == pat[i..] && name[k..][m..] == name[k + m..];
    StarSkips(pat[i..], name[k + m..]);
    assert pat[i..][1..] == pat[i + 1..];
    var h :| 0 <= h <= |name[k + m..]| && Matches(pat[i + 1..], name[k + m..][h..]);
    assert name[k + m..][h..] == name[k + m + h..];
  }

  /** What is left to try: the current position, or the last star taking more characters. */
  ghost predicate CanStill(pat: string, name: string, i: nat, j: nat, star: bool, si: nat, sj: nat)
    requires i <= |pat| && j <= |name| && si <= |pat|
  {
    Matches(pat[i..], name[j..]) || (star && MatchesFrom(pat[si..], name, sj + 1))
  }

  /** Reaching a star at pattern position i. */
  lemma TakeStar(pat: string, name: string, i: nat, j: nat, star: bool, si: nat, sj: nat)
    requires i < |pat| && j <= |name| && pat[i] == '*'
    requires star ==> si <= i && sj <= j && i - si == j - sj && !HasStar(pat[si..i])
    requires !star ==> si <= |pat|
    ensures CanStill(pat, name, i, j, star, si, sj) <==> CanStill(pat, name, i + 1, j, true, i + 1, j)
  {
    StarSkips(pat[i..], name[j..]);
    assert pat[i..][1..] == pat[i + 1..];
    if star && MatchesFrom(pat[si..], name, sj + 1) { LaterStarSubsumes(pat, name, si, sj, i, j); }
    forall k | 0 <= k <= |name[j..]| ensures name[j..][k..] == name[j + k..] {}
    if MatchesFrom(pat[i + 1..], name[j..], 0) {
      var k :| 0 <= k <= |name[j..]| && Matches(pat[i + 1..], name[j..][k..]);
      assert Matches(pat[i + 1..], name[j + k..]);
    }
    if MatchesFrom(pat[i + 1..], name, j) {
      var k :| j <= k <= |name| && Matches(pat[i + 1..], name[k..]);
      assert name[j..][k - j..] == name[k..];
    }
  }

  /** Giving the last star one more character. */
  lemma Retry(pat: string, name: string, si: nat, sj: nat)
    requires si <= |pat| && sj < |name|
    ensures MatchesFrom(pat[si..], name, sj + 1) <==> CanStill(pat, name, si, sj + 1, true, si, sj + 1)
  {
    if MatchesFrom(pat[si..], name, sj + 1) {
      var k :| sj + 1 <= k <= |name| && Matches(pat[si..], name[k..]);
    }
  }

  /** A name at its end matches only stars. */
  lemma {:induction false} OnlyStars(pat: string)
    ensures Matches(pat, "") <==> forall k :: 0 <= k < |pat| ==> pat[k] == '*'
    decreases |pat|
  {
    if pat != "" {
      OnlyStars(pat[1..]);
      if pat[0] == '*' {
        forall k | 0 < k < |pat| ensures pat[k] == pat[1..][k - 1] {}
      }
    }
  }

  // ---------------------------------------------------------------- the matcher

  /** The loop of the matcher from pattern position i and name position j, with at most one saved star. */
  predicate Scan(pat: string, name: string, i: nat, j: nat, star: bool, si: nat, sj: nat)
    requires i <= |pat| && j <= |name| && (star ==> si <= |pat| && sj <= j)
    decreases if star then |name| - sj else |name| + 1, |pat| - i + |name| - j
  {
    if j == |name| then forall k :: i <= k < |pat| ==> pat[k] == '*'
    else if i < |pat| && (pat[i] == '?' || pat[i] == name[j]) then Scan(pat, name, i + 1, j + 1, star, si, sj)
    else if i < |pat| && pat[i] == '*' then Scan(pat, name, i + 1, j, true, i + 1, j)
    else star && Scan(pat, name, si, sj + 1, true, si, sj + 1)
  }

  method MatchComponent(pat: string, name: string) returns (matched: bool)
    ensures matched == Scan(pat, name, 0, 0, false, 0, 0)
    ensures matched ==> Matches(pat, name)
    ensures !HasStar(name) ==> (matched <==> Matches(pat, name))
  {
    ScanIsSound(pat, name, 0, 0, false, 0, 0);
    if !HasStar(name) { ScanIsComplete(pat, name, 0, 0, false, 0, 0); }
    assert pat[0..] == pat && name[0..] == name;
    var i, j, star, si, sj := 0, 0, false, 0, 0;
    while j < |name|
      invariant 0 <= i <= |pat| && 0 <= j <= |name| && 0 <= si <= |pat| && 0 <= sj && (star ==> sj <= j)
      invariant Scan(pat, name, i, j, star, si, sj) == Scan(pat, name, 0, 0, false, 0, 0)
      decreases if star then |name| - sj else |name| + 1, |pat| - i + |name| - j
    {
      if i < |pat| && (pat[i] == '?' || pat[i] == name[j]) {
        i, j := i + 1, j + 1;
      } else if i < |pat| && pat[i] == '*' {
        i := i + 1;
        star, si, sj := true, i, j;
      } else if star {
        sj := sj + 1;
        i, j := si, sj;
      } else {
        return false;
      }
    }
    while i < |pat| && pat[i] == '*'
      invariant 0 <= i <= |pat|
      invariant (forall k :: i <= k < |pat| ==> pat[k] == '*') <==> Scan(pat, name, 0, 0, false, 0, 0)
    {
      i := i + 1;
    }
    matched := i == |pat|;
  }

  /** On names without '*' the scan tries everything there is to try. */
  lemma {:induction false} ScanIsComplete(pat: string, name: string, i: nat, j: nat, star: bool, si: nat, sj: nat)
    requires !HasStar(name) && i <= |pat| && j <= |name|
    requires star ==> si <= i && sj <= j && i - si == j - sj && !HasStar(pat[si..i])
    requires !star ==> si <= |pat|
    ensures Scan(pat, name, i, j, star, si, sj) <==> CanStill(pat, name, i, j, star, si, sj)
    decreases if star then |name| - sj else |name| + 1, |pat| - i + |name| - j
  {
    if j == |name| {
      OnlyStars(pat[i..]);
      assert name[j..] == "";
      forall k | i <= k < |pat| ensures pat[k] == pat[i..][k - i] {}
      if star { EndSubsumes(pat, name, si, sj, i); }
    } else if i < |pat| && (pat[i] == '?' || pat[i] == name[j]) {
      assert name[j] in name;
      assert pat[i..][1..] == pat[i + 1..] && name[j..][1..] == name[j + 1..];
      if star { assert pat[si..i + 1] == pat[si..i] + [pat[i]]; }
      ScanIsComplete(pat, name, i + 1, j + 1, star, si, sj);
    } else if i < |pat| && pat[i] == '*' {
      TakeStar(pat, name, i, j, star, si, sj);
      assert pat[i + 1..i + 1] == "";
      ScanIsComplete(pat, name, i + 1, j, true, i + 1, j);
    } else {
      if i < |pat| { assert pat[i..][0] == pat[i] && name[j..][0] == name[j]; }
      if star {
        Retry(pat, name, si, sj);
        assert pat[si..si] == "";
        ScanIsComplete(pat, name, si, sj + 1, true, si, sj + 1);
      }
    }
  }

  /** At the end of the name a longer star leaves too few characters for the rest of the pattern. */
  lemma EndSubsumes(pat: string, name: string, si: nat, sj: nat, i: nat)
    requires si <= i <= |pat| && sj <= |name| && i - si == |name| - sj && !HasStar(pat[si..i])
    ensures !MatchesFrom(pat[si..], name, sj + 1)
  {
    forall k | sj + 1 <= k <= |name| ensures !Matches(pat[si..], name[k..]) {
      assert pat[si..][..i - si] == pat[si..i];
      if Matches(pat[si..], name[k..]) { SegmentTakes(pat[si..], name[k..], i - si); }
    }
  }

  /** On every name, a scan that succeeds has found a match. */
  lemma {:induction false} ScanIsSound(pat: string, name: string, i: nat, j: nat, star: bool, si: nat, sj: nat)
    requires i <= |pat| && j <= |name| && si <= |pat| && (star ==> sj <= j)
    ensures Scan(pat, name, i, j, star, si, sj) ==> CanStill(pat, name, i, j, star, si, sj)
    decreases if star then |name| - sj else |name| + 1, |pat| - i + |name| - j
  {
    if j == |name| {
      OnlyStars(pat[i..]);
      assert name[j..] == "";
    } else if i < |pat| && (pat[i] == '?' || pat[i] == name[j]) {
      ScanIsSound(pat, name, i + 1, j + 1, star, si, sj);
      assert pat[i..][1..] == pat[i + 1..] && name[j..][1..] == name[j + 1..];
    } else if i < |pat| && pat[i] == '*' {
      ScanIsSound(pat, name, i + 1, j, true, i + 1, j);
      StarSkips(pat[i..], name[j..]);
      assert pat[i..][1..] == pat[i + 1..] && name[j..][0..] == name[j..];
      if MatchesFrom(pat[i + 1..], name, j + 1) {
        var k :| j + 1 <= k <= |name| && Matches(pat[i + 1..], name[k..]);
        assert name[j..][k - j..] == name[k..];
      }
    } else if star {
      ScanIsSound(pat, name, si, sj + 1, true, si, sj + 1);
      Retry(pat, name, si, sj);
    }
  }

  // ---------------------------------------------------------------- when the matcher is right

  ghost predicate RightFor(name: string) {
    forall pat: string :: Scan(pat, name, 0, 0, false, 0, 0) <==> Matches(pat, name)
  }

  function Questions(m: nat): string { seq(m, _ => '?') }

  lemma {:induction false} ScanQuestions(pat: string, name: string, m: nat, i: nat)
    requires i <= m <= |name| && m <= |pat| && forall k :: 0 <= k < m ==> pat[k] == '?'
    ensures Scan(pat, name, i, i, false, 0, 0) == Scan(pat, name, m, m, false, 0, 0)
    decreases m - i
  {
    if i < m { ScanQuestions(pat, name, m, i + 1); }
  }

  lemma {:induction false} MatchQuestions(pat: string, name: string, m: nat)
    requires m <= |name| && m <= |pat| && forall k :: 0 <= k < m ==> pat[k] == '?'
    ensures Matches(pat, name) == Matches(pat[m..], name[m..])
    decreases m
  {
    if m == 0 {
      assert pat[0..] == pat && name[0..] == name;
    } else {
      MatchQuestions(pat[1..], name[1..], m - 1);
      assert pat[1..][m - 1..] == pat[m..] && name[1..][m - 1..] == name[m..];
    }
  }

  /** A '*' in the name is taken as a literal match of the pattern's star, and the match is lost. */
  lemma StarInNameFails(name: string, m: nat) returns (pat: string)
    requires m < |name| && name[m] == '*'
    ensures Matches(pat, name) && !Scan(pat, name, 0, 0, false, 0, 0)
  {
    pat := Questions(m) + (if m + 1 < |name| then "*" else "*?");
    ScanQuestions(pat, name, m, 0);
    MatchQuestions(pat, name, m);
    assert pat[m] == '*';
    var rest := pat[m..];
    StarSkips(rest, name[m..]);
    if m + 1 < |name| {
      assert rest == "*" && rest[1..] == "" && name[m..][|name| - m..] == "";
      assert Matches(rest[1..], name[m..][|name| - m..]);
      assert !Scan(pat, name, m + 1, m + 1, false, 0, 0);
    } else {
      assert rest == "*?" && rest[1..] == "?" && name[m..] == "*" && name[m..][0..] == "*";
      assert rest[1..][1..] == "" && name[m..][1..] == "";
      assert Matches(rest[1..], name[m..][0..]);
      assert pat[m + 1] == '?';
    }
  }

  /** The matcher is right for every pattern exactly on the names that contain no '*'. */
  lemma RightIffNoStar(name: string)
    ensures RightFor(name) <==> !HasStar(name)
  {
    if HasStar(name) {
      var m :| 0 <= m < |name| && name[m] == '*';
      var pat := StarInNameFails(name, m);
    } else {
      forall pat: string ensures Scan(pat, name, 0, 0, false, 0, 0) <==> Matches(pat, name) {
        ScanIsComplete(pat, name, 0, 0, false, 0, 0);
        assert pat[0..] == pat && name[0..] == name;
      }
    }
  }
}
