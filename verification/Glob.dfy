/** Shell-style name matching: the loop with one backtrack point decides the
    declarative glob relation for exactly the names that contain no star. */
module Glob {
  import opened Lists

  /** `*` stands for any string, `?` for any character, anything else for itself. */
  predicate Glob(pattern: string, name: string)
    decreases |pattern| + |name|
  {
    if pattern == [] then name == []
    else if pattern[0] == '*' then Glob(pattern[1..], name) || (name != [] && Glob(pattern, name[1..]))
    else name != [] && (pattern[0] == '?' || pattern[0] == name[0]) && Glob(pattern[1..], name[1..])
  }

  predicate Accepts(p: char, c: char) { p == '?' || p == c }

  /** The loop as a function of its variables. */
  predicate Greedy(name: string, pattern: string, ni: nat, pi: nat, star: Option<nat>, retry: nat)
    requires ni <= |name| && pi <= |pattern| && retry <= ni
    requires star.Some? ==> star.value < pi
    decreases |name| - retry, |pattern| - pi
  {
    if ni < |name| then
      if pi < |pattern| && Accepts(pattern[pi], name[ni]) then Greedy(name, pattern, ni + 1, pi + 1, star, retry)
      else if pi < |pattern| && pattern[pi] == '*' then Greedy(name, pattern, ni, pi + 1, Some(pi), ni)
      else if star.Some? then Greedy(name, pattern, retry + 1, star.value + 1, star, retry + 1)
      else false
    else AllStars(pattern[pi..])
  }

  predicate AllStars(s: string) {
    forall i :: 0 <= i < |s| ==> s[i] == '*'
  }

  method WildcardMatch(name: string, pattern: string) returns (matched: bool)
    ensures matched == Greedy(name, pattern, 0, 0, None, 0)
    ensures matched ==> Glob(pattern, name)
    ensures '*' !in name || '*' !in pattern ==> (matched <==> Glob(pattern, name))
  {
    hide Glob;
    if Greedy(name, pattern, 0, 0, None, 0) { GreedyMatches(name, pattern); }
    if '*' !in name { StarFreeIsExact(name, pattern); }
    if '*' !in pattern {
      PlainPatternIsExact(name, pattern, 0, 0);
      assert pattern[0..] == pattern && name[0..] == name;
    }
    var ni: nat, pi: nat := 0, 0;
    var star: Option<nat> := None;
    var retry: nat := 0;
    while ni < |name|
      invariant ni <= |name| && pi <= |pattern| && retry <= ni && (star.Some? ==> star.value < pi)
      invariant Greedy(name, pattern, ni, pi, star, retry) == Greedy(name, pattern, 0, 0, None, 0)
      decreases |name| - retry, |pattern| - pi
    {
      if pi < |pattern| && (pattern[pi] == '?' || pattern[pi] == name[ni]) {
        ni, pi := ni + 1, pi + 1;
      } else if pi < |pattern| && pattern[pi] == '*' {
        star, retry, pi := Some(pi), ni, pi + 1;
      } else if star.Some? {
        pi, retry := star.value + 1, retry + 1;
        ni := retry;
      } else {
        return false;
      }
    }
    ghost var rest := pattern[pi..];
    ghost var from := pi;
    while pi < |pattern| && pattern[pi] == '*'
      invariant from <= pi <= |pattern| && rest == pattern[from..]
      invariant AllStars(rest) == AllStars(pattern[pi..])
    {
      assert pattern[pi..] == [pattern[pi]] + pattern[pi + 1..];
      pi := pi + 1;
    }
    assert pi < |pattern| ==> pattern[pi..][0] == pattern[pi];
    matched := pi == |pattern|;
  }

  function MatchesPattern(name: string, pattern: string): bool {
    pattern == "" || pattern == "*" || Greedy(name, pattern, 0, 0, None, 0)
  }

  // ----- facts about the relation -----

  lemma {:induction false} StarSkips(pattern: string, name: string, r: nat)
    requires pattern != [] && pattern[0] == '*' && r <= |name| && Glob(pattern[1..], name[r..])
    ensures Glob(pattern, name)
    decreases r
  {
    if r == 0 {
      assert name[0..] == name;
    } else {
      assert name[1..][r - 1..] == name[r..];
      StarSkips(pattern, name[1..], r - 1);
    }
  }

  lemma {:induction false} StarSplits(pattern: string, name: string) returns (r: nat)
    requires pattern != [] && pattern[0] == '*' && Glob(pattern, name)
    ensures r <= |name| && Glob(pattern[1..], name[r..])
    decreases |name|
  {
    if Glob(pattern[1..], name) {
      r := 0;
      assert name[0..] == name;
    } else {
      var k := StarSplits(pattern, name[1..]);
      r := k + 1;
      assert name[1..][k..] == name[r..];
    }
  }

  lemma {:induction false} StarsMatchNothing(pattern: string)
    ensures Glob(pattern, []) <==> AllStars(pattern)
  {
    if pattern != [] {
      StarsMatchNothing(pattern[1..]);
      assert pattern == [pattern[0]] + pattern[1..];
    }
  }

  // ----- soundness -----

  /** Every state of the loop is a commitment that glob matching could make. */
  ghost predicate Committed(name: string, pattern: string, ni: nat, pi: nat, star: Option<nat>, retry: nat)
    requires ni <= |name| && pi <= |pattern| && retry <= ni
  {
    && (Glob(pattern[pi..], name[ni..]) ==> Glob(pattern, name))
    && (star.Some? ==>
          && star.value < |pattern|
          && (forall r :: retry <= r <= |name| && Glob(pattern[star.value + 1..], name[r..]) ==> Glob(pattern, name)))
  }

  lemma {:induction false} GreedyIsSound(name: string, pattern: string, ni: nat, pi: nat, star: Option<nat>, retry: nat)
    requires ni <= |name| && pi <= |pattern| && retry <= ni && (star.Some? ==> star.value < pi)
    requires Committed(name, pattern, ni, pi, star, retry)
    requires Greedy(name, pattern, ni, pi, star, retry)
    ensures Glob(pattern, name)
    decreases |name| - retry, |pattern| - pi
  {
    if ni < |name| {
      if pi < |pattern| && Accepts(pattern[pi], name[ni]) {
        if Glob(pattern[pi + 1..], name[ni + 1..]) { Consume(name, pattern, ni, pi); }
        GreedyIsSound(name, pattern, ni + 1, pi + 1, star, retry);
      } else if pi < |pattern| && pattern[pi] == '*' {
        forall r | ni <= r <= |name| && Glob(pattern[pi + 1..], name[r..]) ensures Glob(pattern, name) {
          assert pattern[pi..][1..] == pattern[pi + 1..] && name[ni..][r - ni..] == name[r..];
          StarSkips(pattern[pi..], name[ni..], r - ni);
        }
        GreedyIsSound(name, pattern, ni, pi + 1, Some(pi), ni);
      } else {
        GreedyIsSound(name, pattern, retry + 1, star.value + 1, star, retry + 1);
      }
    } else {
      StarsMatchNothing(pattern[pi..]);
      assert name[ni..] == [];
    }
  }

  /** An accepted character is one that glob matching may consume: by equality,
      by `?`, or by a star that happens to meet a star. */
  lemma Consume(name: string, pattern: string, ni: nat, pi: nat)
    requires ni < |name| && pi < |pattern| && Accepts(pattern[pi], name[ni])
    requires Glob(pattern[pi + 1..], name[ni + 1..])
    ensures Glob(pattern[pi..], name[ni..])
  {
    assert pattern[pi..][1..] == pattern[pi + 1..] && name[ni..][1..] == name[ni + 1..];
    if pattern[pi] == '*' { StarSkips(pattern[pi..], name[ni..], 1); }
  }

  // ----- completeness for star-free names -----

  /** Whatever match there is lies ahead: at the cursor, or at a later retry of
      the last star; since that star, plain characters have matched one to one. */
  ghost predicate Pending(name: string, pattern: string, ni: nat, pi: nat, star: Option<nat>, retry: nat)
    requires ni <= |name| && pi <= |pattern| && retry <= ni
  {
    && (star.Some? ==>
          && star.value < pi && ni - retry == pi - star.value - 1
          && '*' !in pattern[star.value + 1..pi])
    && (Glob(pattern, name) ==>
          || Glob(pattern[pi..], name[ni..])
          || (star.Some? && Later(name, pattern[star.value + 1..], retry)))
  }

  /** The rest of the pattern matches from a position after `from`. */
  ghost predicate Later(name: string, rest: string, from: nat) {
    exists r :: from < r <= |name| && Glob(rest, name[r..])
  }

  lemma LaterNext(name: string, rest: string, from: nat)
    requires Later(name, rest, from)
    ensures from + 1 <= |name| && (Glob(rest, name[from + 1..]) || Later(name, rest, from + 1))
  {
    hide Glob;
  }

  lemma {:induction false} GreedyIsComplete(name: string, pattern: string, ni: nat, pi: nat, star: Option<nat>,
                                            retry: nat)
    requires ni <= |name| && pi <= |pattern| && retry <= ni && (star.Some? ==> star.value < pi)
    requires '*' !in name && Pending(name, pattern, ni, pi, star, retry)
    requires Glob(pattern, name)
    ensures Greedy(name, pattern, ni, pi, star, retry)
    decreases |name| - retry, |pattern| - pi
  {
    hide Glob, Pending;
    if ni < |name| {
      if pi < |pattern| && Accepts(pattern[pi], name[ni]) {
        Advance(name, pattern, ni, pi, star, retry);
        GreedyIsComplete(name, pattern, ni + 1, pi + 1, star, retry);
      } else if pi < |pattern| && pattern[pi] == '*' {
        NewStar(name, pattern, ni, pi, star, retry);
        GreedyIsComplete(name, pattern, ni, pi + 1, Some(pi), ni);
      } else {
        Retry(name, pattern, ni, pi, star, retry);
        GreedyIsComplete(name, pattern, retry + 1, star.value + 1, star, retry + 1);
      }
    } else {
      AtTheEnd(name, pattern, pi, star, retry);
    }
  }

  /** A matching character is consumed. */
  lemma Advance(name: string, pattern: string, ni: nat, pi: nat, star: Option<nat>, retry: nat)
    requires ni < |name| && pi < |pattern| && retry <= ni && Accepts(pattern[pi], name[ni]) && '*' !in name
    requires Pending(name, pattern, ni, pi, star, retry)
    ensures Pending(name, pattern, ni + 1, pi + 1, star, retry)
  {
    assert name[ni] in name;
    assert pattern[pi..][1..] == pattern[pi + 1..] && name[ni..][1..] == name[ni + 1..];
    if star.Some? { assert pattern[star.value + 1..pi + 1] == pattern[star.value + 1..pi] + [pattern[pi]]; }
  }

  /** Where the cursor cannot match, the last star must cover one character more. */
  lemma Retry(name: string, pattern: string, ni: nat, pi: nat, star: Option<nat>, retry: nat)
    requires ni < |name| && pi <= |pattern| && retry <= ni && Glob(pattern, name)
    requires pi < |pattern| ==> !Accepts(pattern[pi], name[ni]) && pattern[pi] != '*'
    requires Pending(name, pattern, ni, pi, star, retry)
    ensures star.Some? && retry + 1 <= |name| && Pending(name, pattern, retry + 1, star.value + 1, star, retry + 1)
  {
    hide Glob, Later;
    CannotMatch(name[ni..], pattern[pi..]);
    LaterNext(name, pattern[star.value + 1..], retry);
    assert pattern[star.value + 1..star.value + 1] == [];
  }

  lemma CannotMatch(name: string, pattern: string)
    requires name != [] && (pattern != [] ==> !Accepts(pattern[0], name[0]) && pattern[0] != '*')
    ensures !Glob(pattern, name)
  {
  }

  /** Reaching a star, the earlier star is no longer needed. */
  lemma NewStar(name: string, pattern: string, ni: nat, pi: nat, star: Option<nat>, retry: nat)
    requires ni < |name| && pi < |pattern| && retry <= ni && pattern[pi] == '*'
    requires Pending(name, pattern, ni, pi, star, retry) && Glob(pattern, name)
    ensures Pending(name, pattern, ni, pi + 1, Some(pi), ni)
  {
    hide Glob;
    var from := ni;
    if !Glob(pattern[pi..], name[ni..]) {
      assert Later(name, pattern[star.value + 1..], retry);
      var r :| retry < r <= |name| && Glob(pattern[star.value + 1..], name[r..]);
      from := SkipPlain(name, pattern, star.value + 1, pi, r);
    }
    var q := StarAt(name, pattern, pi, from);
    if q > ni { assert Later(name, pattern[pi + 1..], ni); }
  }

  /** A star-free stretch of the pattern consumes as many characters as it has. */
  lemma SkipPlain(name: string, pattern: string, from: nat, to: nat, r: nat) returns (at: nat)
    requires from <= to <= |pattern| && r <= |name| && '*' !in pattern[from..to] && Glob(pattern[from..], name[r..])
    ensures at == r + (to - from) <= |name| && Glob(pattern[to..], name[at..])
  {
    hide Glob;
    var k := to - from;
    assert pattern[from..][..k] == pattern[from..to];
    PlainPrefix(pattern[from..], name[r..], k);
    at := r + k;
    assert name[r..][k..] == name[at..] && pattern[from..][k..] == pattern[to..];
  }

  /** A star at `pi` leaves the rest of the pattern to match from some later position. */
  lemma StarAt(name: string, pattern: string, pi: nat, from: nat) returns (q: nat)
    requires pi < |pattern| && from <= |name| && pattern[pi] == '*' && Glob(pattern[pi..], name[from..])
    ensures from <= q <= |name| && Glob(pattern[pi + 1..], name[q..])
  {
    hide Glob;
    var k := StarSplits(pattern[pi..], name[from..]);
    q := from + k;
    assert pattern[pi..][1..] == pattern[pi + 1..] && name[from..][k..] == name[q..];
  }

  /** A star-free prefix consumes exactly as many characters as it has. */
  lemma {:induction false} PlainPrefix(pattern: string, name: string, k: nat)
    requires k <= |pattern| && '*' !in pattern[..k] && Glob(pattern, name)
    ensures k <= |name| && Glob(pattern[k..], name[k..])
    decreases k
  {
    if k == 0 {
      assert pattern[0..] == pattern && name[0..] == name;
    } else {
      assert pattern[0] == pattern[..k][0];
      assert pattern[..k][1..] == pattern[1..][..k - 1];
      forall c | c in pattern[1..][..k - 1] ensures c in pattern[..k] { assert c in pattern[..k][1..]; }
      PlainPrefix(pattern[1..], name[1..], k - 1);
      assert pattern[1..][k - 1..] == pattern[k..] && name[1..][k - 1..] == name[k..];
    }
  }

  lemma AtTheEnd(name: string, pattern: string, pi: nat, star: Option<nat>, retry: nat)
    requires pi <= |pattern| && retry <= |name| && Pending(name, pattern, |name|, pi, star, retry)
    requires Glob(pattern, name)
    ensures AllStars(pattern[pi..])
  {
    hide Glob;
    StarsMatchNothing(pattern[pi..]);
    assert name[|name|..] == [];
    if !Glob(pattern[pi..], name[|name|..]) {
      assert Later(name, pattern[star.value + 1..], retry);
      var r :| retry < r <= |name| && Glob(pattern[star.value + 1..], name[r..]);
      var at := SkipPlain(name, pattern, star.value + 1, pi, r);
    }
  }

  // ----- exactly the star-free names -----

  lemma StarFreeIsExact(name: string, pattern: string)
    requires '*' !in name
    ensures Greedy(name, pattern, 0, 0, None, 0) <==> Glob(pattern, name)
  {
    assert pattern[0..] == pattern && name[0..] == name;
    if Glob(pattern, name) { GreedyIsComplete(name, pattern, 0, 0, None, 0); }
    if Greedy(name, pattern, 0, 0, None, 0) { GreedyMatches(name, pattern); }
  }

  /** A pattern without a star matches character by character, whatever the name contains. */
  lemma {:induction false} PlainPatternIsExact(name: string, pattern: string, ni: nat, retry: nat)
    requires ni <= |name| && ni <= |pattern| && retry <= ni && '*' !in pattern
    ensures Greedy(name, pattern, ni, ni, None, retry) <==> Glob(pattern[ni..], name[ni..])
    decreases |name| - ni
  {
    assert ni < |pattern| ==> pattern[ni] in pattern && pattern[ni..][1..] == pattern[ni + 1..];
    if ni < |name| {
      assert name[ni..][1..] == name[ni + 1..];
      if ni < |pattern| && Accepts(pattern[ni], name[ni]) { PlainPatternIsExact(name, pattern, ni + 1, retry); }
    } else {
      StarsMatchNothing(pattern[ni..]);
      assert name[ni..] == [];
    }
  }

  function FirstStar(name: string): (k: nat)
    requires '*' in name
    ensures k < |name| && name[k] == '*' && '*' !in name[..k]
  {
    if name[0] == '*' then 0 else
    var k := 1 + FirstStar(name[1..]);
    assert name[..k] == [name[0]] + name[1..][..k - 1];
    k
  }

  function Questions(n: nat): (s: string)
    ensures |s| == n && forall i :: 0 <= i < n ==> s[i] == '?'
  {
    seq(n, _ => '?')
  }

  /** The name itself up to its first star, then a star and one `?` per remaining character. */
  function Misleading(name: string): string
    requires '*' in name
  {
    name[..FirstStar(name)] + "*" + Questions(|name| - FirstStar(name))
  }

  lemma {:induction false} QuestionsMatch(n: nat, name: string)
    requires |name| == n
    ensures Glob(Questions(n), name)
  {
    if n > 0 {
      assert Questions(n)[1..] == Questions(n - 1);
      QuestionsMatch(n - 1, name[1..]);
    }
  }

  lemma {:induction false} LiteralPrefix(prefix: string, pattern: string, name: string)
    requires '*' !in prefix && Glob(pattern, name)
    ensures Glob(prefix + pattern, prefix + name)
  {
    if prefix == [] {
      assert prefix + pattern == pattern && prefix + name == name;
    } else {
      assert (prefix + pattern)[1..] == prefix[1..] + pattern && (prefix + name)[1..] == prefix[1..] + name;
      assert prefix[0] in prefix;
      LiteralPrefix(prefix[1..], pattern, name);
    }
  }

  lemma MisleadingMatches(name: string)
    requires '*' in name
    ensures Glob(Misleading(name), name)
  {
    var k := FirstStar(name);
    var questions := Questions(|name| - k);
    QuestionsMatch(|name| - k, name[k..]);
    assert ("*" + questions)[1..] == questions && name[k..][0..] == name[k..];
    StarSkips("*" + questions, name[k..], 0);
    LiteralPrefix(name[..k], "*" + questions, name[k..]);
    assert name[..k] + name[k..] == name;
    assert name[..k] + ("*" + questions) == Misleading(name);
  }

  /** The loop walks both strings in step and ends one `?` short. */
  lemma {:induction false} MisleadingFails(name: string, i: nat)
    requires '*' in name && i <= |name|
    ensures |Misleading(name)| == |name| + 1
    ensures !Greedy(name, Misleading(name), i, i, None, 0)
    decreases |name| - i
  {
    var k := FirstStar(name);
    var pattern := Misleading(name);
    assert |pattern| == |name| + 1;
    if i < |name| {
      assert pattern[i] == if i < k then name[i] else if i == k then '*' else '?';
      MisleadingFails(name, i + 1);
    } else {
      assert pattern[i..][0] == '?';
    }
  }

  /** The matcher agrees with the glob relation on every pattern exactly for the
      names without a star; the empty pattern selects everything by convention. */
  lemma ExactlyStarFreeNames(name: string)
    ensures (forall pattern :: MatchesPattern(name, pattern) <==> pattern == "" || Glob(pattern, name)) <==>
        '*' !in name
  {
    if '*' in name {
      MisleadingMatches(name);
      MisleadingFails(name, 0);
      var pattern := Misleading(name);
      assert |pattern| >= 2;
      assert !MatchesPattern(name, pattern) && Glob(pattern, name);
    } else {
      forall pattern ensures MatchesPattern(name, pattern) <==> pattern == "" || Glob(pattern, name) {
        StarFreeIsExact(name, pattern);
        if pattern == "*" {
          assert pattern[1..] == [] && name[|name|..] == [];
          StarSkips(pattern, name, |name|);
        }
      }
    }
  }

  lemma GreedyMatches(name: string, pattern: string)
    requires Greedy(name, pattern, 0, 0, None, 0)
    ensures Glob(pattern, name)
  {
    assert pattern[0..] == pattern && name[0..] == name;
    GreedyIsSound(name, pattern, 0, 0, None, 0);
  }

  /** Whatever the name, a reported match is a match. */
  lemma MatchesAreSound(name: string, pattern: string)
    requires MatchesPattern(name, pattern)
    ensures pattern == "" || Glob(pattern, name)
  {
    if pattern == "*" {
      assert pattern[1..] == [] && name[|name|..] == [];
      StarSkips(pattern, name, |name|);
    } else if pattern != "" {
      GreedyMatches(name, pattern);
    }
  }
}
