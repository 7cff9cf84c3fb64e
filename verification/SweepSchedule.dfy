/** What an equivalence sweep must try, and in which order. Members of a class
    are compared with the first member of each kind in turn, one kind a round, so
    the pairs of a run, the representatives and the refutations all follow from
    which members are equivalent and from the budget alone. */
module SweepSchedule {
  import opened Lists
  import opened LogicNetwork
  import opened Cnf

  /** Boundary origins assigned by a counterexample. */
  type Refutation = map<nat, bool>

  ghost predicate Same(rows: seq<Row>, a: Lit, b: Lit) {
    forall env: Boundary :: LitValue(rows, env, a) == LitValue(rows, env, b)
  }

  /** Every boundary that follows the refutation tells the two literals apart. */
  ghost predicate Separates(refutation: Refutation, rows: seq<Row>, a: Lit, b: Lit) {
    forall env: Boundary :: (forall o :: o in refutation ==> env(o) == refutation[o]) ==>
      LitValue(rows, env, a) != LitValue(rows, env, b)
  }

  lemma SeparatesIsNotSame(refutation: Refutation, rows: seq<Row>, a: Lit, b: Lit)
    requires Separates(refutation, rows, a, b)
    ensures !Same(rows, a, b)
  {
    var env: Boundary := o => o in refutation && refutation[o];
    assert LitValue(rows, env, a) != LitValue(rows, env, b);
  }

  // ----- one class -----

  /** No earlier member of the class is equivalent to member `i`. */
  ghost predicate FirstOfKind(rows: seq<Row>, members: seq<Lit>, i: nat)
    requires i < |members|
  {
    forall k :: 0 <= k < i ==> !Same(rows, members[k], members[i])
  }

  /** Each assigned member points back to the first member of its kind. */
  ghost predicate Assigned(rows: seq<Row>, members: seq<Lit>, representatives: seq<Option<nat>>) {
    && |representatives| == |members|
    && forall i :: 0 <= i < |members| && representatives[i].Some? ==>
         var j := representatives[i].value;
         j < i && representatives[j].None? && Same(rows, members[j], members[i]) && FirstOfKind(rows, members, j)
  }

  predicate Ascending(s: seq<nat>) {
    forall i, j :: 0 <= i < j < |s| ==> s[i] < s[j]
  }

  /** Between rounds: settled members are never equivalent to open ones, and a
      settled member without a representative is the first of its kind. */
  ghost predicate Settled(rows: seq<Row>, members: seq<Lit>, representatives: seq<Option<nat>>, open: seq<nat>) {
    && Assigned(rows, members, representatives)
    && Ascending(open)
    && (forall i :: i in open ==> i < |members| && representatives[i].None?)
    && (forall i, k :: i in open && 0 <= k < |members| && k !in open ==> !Same(rows, members[k], members[i]))
    && (forall k :: 0 <= k < |members| && k !in open && representatives[k].None? ==> FirstOfKind(rows, members, k))
  }

  lemma SameBack(rows: seq<Row>, a: Lit, b: Lit)
    ensures Same(rows, a, b) <==> Same(rows, b, a)
  {
    hide Value;
    if Same(rows, a, b) {
      forall env: Boundary ensures LitValue(rows, env, b) == LitValue(rows, env, a) {
        assert LitValue(rows, env, a) == LitValue(rows, env, b);
      }
    }
    if Same(rows, b, a) {
      forall env: Boundary ensures LitValue(rows, env, a) == LitValue(rows, env, b) {
        assert LitValue(rows, env, b) == LitValue(rows, env, a);
      }
    }
  }

  lemma SameTwice(rows: seq<Row>, a: Lit, b: Lit, c: Lit)
    requires Same(rows, a, b) && Same(rows, b, c)
    ensures Same(rows, a, c)
  {
    hide Value;
    forall env: Boundary ensures LitValue(rows, env, a) == LitValue(rows, env, c) {
      assert LitValue(rows, env, a) == LitValue(rows, env, b) == LitValue(rows, env, c);
    }
  }

  lemma SameSwap(rows: seq<Row>, a: Lit, b: Lit, c: Lit)
    requires Same(rows, a, b) && !Same(rows, a, c)
    ensures !Same(rows, b, c)
  {
    hide Value;
    var env: Boundary :| LitValue(rows, env, a) != LitValue(rows, env, c);
    assert LitValue(rows, env, a) == LitValue(rows, env, b);
  }

  /** Everything before the first open member is settled, so it is the first of its kind. */
  lemma FirstIsFirst(rows: seq<Row>, members: seq<Lit>, representatives: seq<Option<nat>>, open: seq<nat>)
    requires Settled(rows, members, representatives, open) && open != []
    ensures open[0] < |members| && FirstOfKind(rows, members, open[0])
  {
    assert open[0] in open;
    forall k | 0 <= k < open[0] ensures k !in open {
    }
  }

  // ----- what a number of rounds settles -----

  /** How many kinds have their first member before `j`. */
  ghost function Kinds(rows: seq<Row>, members: seq<Lit>, j: nat): nat
    requires j <= |members|
  {
    if j == 0 then 0 else Kinds(rows, members, j - 1) + if FirstOfKind(rows, members, j - 1) then 1 else 0
  }

  /** The open members include the first members of exactly the later kinds. */
  ghost predicate Front(rows: seq<Row>, members: seq<Lit>, open: seq<nat>, rounds: nat) {
    forall j: nat :: j < |members| && FirstOfKind(rows, members, j) ==>
        (j in open <==> Kinds(rows, members, j) >= rounds)
  }

  /** A class has been swept `rounds` times, or fewer times and nothing is left to sweep. */
  ghost predicate SweptTo(rows: seq<Row>, members: seq<Lit>, open: seq<nat>, rounds: nat) {
    exists n: nat :: n <= rounds && Front(rows, members, open, n) && (n == rounds || |open| < 2)
  }

  lemma {:induction false} KindsGrow(rows: seq<Row>, members: seq<Lit>, i: nat, j: nat)
    requires i <= j <= |members|
    ensures Kinds(rows, members, i) <= Kinds(rows, members, j)
    ensures i < j && FirstOfKind(rows, members, i) ==> Kinds(rows, members, i) < Kinds(rows, members, j)
    decreases j
  {
    hide FirstOfKind;
    if i < j { KindsGrow(rows, members, i, j - 1); }
  }

  /** Every smaller number of kinds is reached by an earlier first member. */
  lemma {:induction false} KindsReached(rows: seq<Row>, members: seq<Lit>, j: nat, n: nat) returns (k: nat)
    requires j <= |members| && n < Kinds(rows, members, j)
    ensures k < j && FirstOfKind(rows, members, k) && Kinds(rows, members, k) == n
    decreases j
  {
    hide FirstOfKind;
    if n < Kinds(rows, members, j - 1) {
      k := KindsReached(rows, members, j - 1, n);
    } else {
      k := j - 1;
    }
  }

  /** Sweeping the first open member settles exactly the next kind. */
  lemma FrontMoves(rows: seq<Row>, members: seq<Lit>, representatives: seq<Option<nat>>, open: seq<nat>,
                   remaining: seq<nat>, n: nat)
    requires Settled(rows, members, representatives, open) && open != [] && Front(rows, members, open, n)
    requires forall j: nat :: j < |members| && FirstOfKind(rows, members, j) ==>
               (j in remaining <==> j in open && j != open[0])
    ensures Front(rows, members, remaining, n + 1)
  {
    FirstIsNext(rows, members, representatives, open, n);
    hide FirstOfKind, Kinds;
    var first := open[0];
    forall j: nat | j < |members| && FirstOfKind(rows, members, j) && j in open && j != first
      ensures Kinds(rows, members, j) > n
    {
      OpenAscends(rows, members, representatives, open, j);
      KindsGrow(rows, members, first, j);
    }
    forall j: nat | j < |members| && FirstOfKind(rows, members, j)
      ensures j in remaining <==> Kinds(rows, members, j) >= n + 1
    {
      assert j in open <==> Kinds(rows, members, j) >= n;
    }
  }

  lemma OpenAscends(rows: seq<Row>, members: seq<Lit>, representatives: seq<Option<nat>>, open: seq<nat>, k: nat)
    requires Settled(rows, members, representatives, open) && k in open
    ensures open[0] <= k
  {
    hide Same, FirstOfKind;
  }

  lemma SweptFront(rows: seq<Row>, members: seq<Lit>, open: seq<nat>, rounds: nat)
    requires |open| >= 2 && SweptTo(rows, members, open, rounds)
    ensures Front(rows, members, open, rounds)
  {
    hide Front;
  }

  lemma FrontSwept(rows: seq<Row>, members: seq<Lit>, open: seq<nat>, rounds: nat)
    requires Front(rows, members, open, rounds)
    ensures SweptTo(rows, members, open, rounds)
  {
    hide Front;
  }

  lemma SweepRests(rows: seq<Row>, members: seq<Lit>, open: seq<nat>, rounds: nat)
    requires |open| < 2 && SweptTo(rows, members, open, rounds)
    ensures SweptTo(rows, members, open, rounds + 1)
  {
    hide Front;
  }

  // ----- the pairs of a run -----

  /** Member `other` of a class compared with member `first`. */
  datatype Try = Try(group: nat, first: nat, other: nat)

  /** A place in the order of a run: by round, then by class, then by member. */
  datatype Mark = Mark(round: nat, group: nat, other: nat)

  predicate Less(a: Mark, b: Mark) {
    a.round < b.round || (a.round == b.round && (a.group < b.group || (a.group == b.group && a.other < b.other)))
  }

  /** The first member of a kind is compared with every later member of no earlier kind. */
  ghost predicate Due(rows: seq<Row>, classes: seq<seq<Lit>>, t: Try) {
    && t.group < |classes| && t.first < t.other < |classes[t.group]|
    && FirstOfKind(rows, classes[t.group], t.first)
    && forall k :: 0 <= k < t.first ==> !Same(rows, classes[t.group][k], classes[t.group][t.other])
  }

  /** A kind has its turn in the round that counts the kinds before it. */
  ghost function Place(rows: seq<Row>, classes: seq<seq<Lit>>, t: Try): Mark
    requires Due(rows, classes, t)
  {
    Mark(Kinds(rows, classes[t.group], t.first), t.group, t.other)
  }

  ghost predicate InOrder(rows: seq<Row>, classes: seq<seq<Lit>>, log: seq<Try>) {
    && (forall t :: t in log ==> Due(rows, classes, t))
    && forall x, y :: 0 <= x < y < |log| ==> Less(Place(rows, classes, log[x]), Place(rows, classes, log[y]))
  }

  /** The pairs tried by a run of at most `rounds` rounds: due ones, in order, none passed over. */
  ghost predicate Schedule(rows: seq<Row>, classes: seq<seq<Lit>>, rounds: nat, log: seq<Try>) {
    && InOrder(rows, classes, log)
    && (forall t :: t in log ==> Due(rows, classes, t) && Place(rows, classes, t).round < rounds)
    && forall t, u ::
         t in log && Due(rows, classes, t) && Due(rows, classes, u)
         && Less(Place(rows, classes, u), Place(rows, classes, t)) ==>
           u in log
  }

  /** The run was not cut short. */
  ghost predicate Complete(rows: seq<Row>, classes: seq<seq<Lit>>, rounds: nat, log: seq<Try>) {
    forall t :: Due(rows, classes, t) && Place(rows, classes, t).round < rounds ==> t in log
  }

  /** A member is represented exactly by the member it was compared with and found equivalent to. */
  ghost predicate Recorded(rows: seq<Row>, members: seq<Lit>, representatives: seq<Option<nat>>, log: seq<Try>,
                           c: nat) {
    && |representatives| == |members|
    && forall i, j: nat :: 0 <= i < |members| ==>
         (representatives[i] == Some(j) <==>
            j < |members| && Try(c, j, i) in log && Same(rows, members[j], members[i]))
  }

  ghost predicate AllRecorded(rows: seq<Row>, classes: seq<seq<Lit>>, representatives: seq<seq<Option<nat>>>,
                              log: seq<Try>) {
    && |representatives| == |classes|
    && forall c :: 0 <= c < |classes| ==> Recorded(rows, classes[c], representatives[c], log, c)
  }

  /** One refutation for each tried pair that differs, in order, separating that pair. */
  ghost predicate Answers(rows: seq<Row>, classes: seq<seq<Lit>>, found: seq<Refutation>, log: seq<Try>) {
    if log == [] then found == [] else
    var t := log[|log| - 1];
    && Due(rows, classes, t)
    && if Agree(rows, classes, t) then Answers(rows, classes, found, log[..|log| - 1])
       else
         && found != []
         && Separates(found[|found| - 1], rows, classes[t.group][t.first], classes[t.group][t.other])
         && Answers(rows, classes, found[..|found| - 1], log[..|log| - 1])
  }

  ghost predicate Agree(rows: seq<Row>, classes: seq<seq<Lit>>, t: Try)
    requires Due(rows, classes, t)
  {
    Same(rows, classes[t.group][t.first], classes[t.group][t.other])
  }

  /** The pairs tried so far are exactly the due pairs before the mark. */
  ghost predicate Upto(rows: seq<Row>, classes: seq<seq<Lit>>, log: seq<Try>, mark: Mark) {
    && InOrder(rows, classes, log)
    && forall t {:trigger t in log} {:trigger Due(rows, classes, t)} ::
         t in log <==> Due(rows, classes, t) && Less(Place(rows, classes, t), mark)
  }

  lemma StartsUpto(rows: seq<Row>, classes: seq<seq<Lit>>)
    ensures Upto(rows, classes, [], Mark(0, 0, 0))
  {
    hide Due;
  }

  lemma UptoSchedules(rows: seq<Row>, classes: seq<seq<Lit>>, log: seq<Try>, mark: Mark, rounds: nat)
    requires Upto(rows, classes, log, mark) && !Less(Mark(rounds, 0, 0), mark)
    ensures Schedule(rows, classes, rounds, log)
    ensures mark == Mark(rounds, 0, 0) ==> Complete(rows, classes, rounds, log)
  {
    hide Due;
  }

  lemma MoreRounds(rows: seq<Row>, classes: seq<seq<Lit>>, rounds: nat, more: nat, log: seq<Try>)
    requires Schedule(rows, classes, rounds, log) && rounds <= more
    ensures Schedule(rows, classes, more, log)
  {
    hide Due;
  }

  lemma NoTries(rows: seq<Row>, classes: seq<seq<Lit>>, rounds: nat)
    ensures Schedule(rows, classes, rounds, []) && Answers(rows, classes, [], [])
  {
  }

  lemma UptoSkips(rows: seq<Row>, classes: seq<seq<Lit>>, log: seq<Try>, mark: Mark, next: Mark)
    requires Upto(rows, classes, log, mark) && !Less(next, mark)
    requires forall t :: Due(rows, classes, t) && Less(Place(rows, classes, t), next) ==>
               Less(Place(rows, classes, t), mark)
    ensures Upto(rows, classes, log, next)
  {
    hide Due;
    forall t | Due(rows, classes, t) && Less(Place(rows, classes, t), mark)
      ensures Less(Place(rows, classes, t), next)
    {
    }
  }

  lemma UptoAdds(rows: seq<Row>, classes: seq<seq<Lit>>, log: seq<Try>, mark: Mark, t: Try)
    requires Upto(rows, classes, log, mark) && Due(rows, classes, t) && Place(rows, classes, t) == mark
    ensures Upto(rows, classes, log + [t], mark.(other := mark.other + 1))
  {
    var next := mark.(other := mark.other + 1);
    forall u | Due(rows, classes, u) && Less(Place(rows, classes, u), next)
      ensures u in log + [t]
    {
      if !Less(Place(rows, classes, u), mark) { SamePlace(rows, classes, t, u); }
    }
    hide Due;
    var log' := log + [t];
    forall x, y | 0 <= x < y < |log'|
      ensures Less(Place(rows, classes, log'[x]), Place(rows, classes, log'[y]))
    {
      assert log[x] in log;
    }
  }

  lemma SamePlace(rows: seq<Row>, classes: seq<seq<Lit>>, t: Try, u: Try)
    requires Due(rows, classes, t) && Due(rows, classes, u) && Place(rows, classes, t) == Place(rows, classes, u)
    ensures t == u
  {
    OneOfRound(rows, classes[t.group], t.first, u.first);
  }

  lemma OneOfRound(rows: seq<Row>, members: seq<Lit>, a: nat, b: nat)
    requires a < |members| && b < |members| && FirstOfKind(rows, members, a) && FirstOfKind(rows, members, b)
    requires Kinds(rows, members, a) == Kinds(rows, members, b)
    ensures a == b
  {
    hide FirstOfKind, Kinds;
    if a < b { KindsGrow(rows, members, a, b); }
    if b < a { KindsGrow(rows, members, b, a); }
  }

  // ----- the open members are what is due -----

  lemma DueIsOpen(rows: seq<Row>, classes: seq<seq<Lit>>, representatives: seq<Option<nat>>, open: seq<nat>, n: nat,
                  t: Try)
    requires Due(rows, classes, t) && Place(rows, classes, t).round >= n
    requires Settled(rows, classes[t.group], representatives, open) && Front(rows, classes[t.group], open, n)
    ensures t.first in open && t.other in open
  {
    var members := classes[t.group];
    if t.other !in open {
      var f := if representatives[t.other].Some? then representatives[t.other].value else t.other;
      SameBack(rows, members[f], members[t.other]);
      assert FirstOfKind(rows, members, f) && f !in open;
      assert f >= t.first;
      hide FirstOfKind, Kinds, Same;
      KindsGrow(rows, members, t.first, f);
    }
  }

  lemma FirstIsNext(rows: seq<Row>, members: seq<Lit>, representatives: seq<Option<nat>>, open: seq<nat>, n: nat)
    requires Settled(rows, members, representatives, open) && open != [] && Front(rows, members, open, n)
    ensures open[0] < |members| && FirstOfKind(rows, members, open[0]) && Kinds(rows, members, open[0]) == n
  {
    FirstIsFirst(rows, members, representatives, open);
    hide FirstOfKind, Kinds;
    var first := open[0];
    assert first in open;
    if Kinds(rows, members, first) > n {
      var k := KindsReached(rows, members, first, n);
      OpenAscends(rows, members, representatives, open, k);
    }
  }

  /** In round `n` the pairs due in a class compare its first open member with the others. */
  lemma DueIsNext(rows: seq<Row>, classes: seq<seq<Lit>>, representatives: seq<Option<nat>>, open: seq<nat>, n: nat,
                  t: Try)
    requires Due(rows, classes, t) && Place(rows, classes, t).round == n && open != []
    requires Settled(rows, classes[t.group], representatives, open) && Front(rows, classes[t.group], open, n)
    ensures t.first == open[0] && t.other in open && t.other > open[0]
  {
    DueIsOpen(rows, classes, representatives, open, n, t);
    FirstIsNext(rows, classes[t.group], representatives, open, n);
    OneOfRound(rows, classes[t.group], t.first, open[0]);
  }

  lemma OpenIsDue(rows: seq<Row>, classes: seq<seq<Lit>>, c: nat, representatives: seq<Option<nat>>, open: seq<nat>,
                  n: nat, p: nat)
    requires c < |classes| && Settled(rows, classes[c], representatives, open) && Front(rows, classes[c], open, n)
    requires 1 <= p < |open|
    ensures Due(rows, classes, Try(c, open[0], open[p]))
    ensures Place(rows, classes, Try(c, open[0], open[p])) == Mark(n, c, open[p])
  {
    FirstIsNext(rows, classes[c], representatives, open, n);
    hide Same, Kinds;
    assert open[p] in open;
    forall k | 0 <= k < open[0] ensures k !in open {}
  }

  lemma OnlyOne(open: seq<nat>, i: nat, j: nat)
    requires |open| < 2 && i in open && j in open
    ensures i == j
  {
  }

  /** A class with fewer than two open members has nothing due any more. */
  lemma NothingDue(rows: seq<Row>, classes: seq<seq<Lit>>, representatives: seq<Option<nat>>, open: seq<nat>, n: nat,
                   t: Try)
    requires Due(rows, classes, t) && |open| < 2
    requires Settled(rows, classes[t.group], representatives, open) && SweptTo(rows, classes[t.group], open, n)
    ensures Place(rows, classes, t).round < n
  {
    assert t.first < t.other;
    hide Settled, Front, Due;
    var m: nat :| m <= n && Front(rows, classes[t.group], open, m) && (m == n || |open| < 2);
    if Place(rows, classes, t).round >= n {
      DueIsOpen(rows, classes, representatives, open, m, t);
      OnlyOne(open, t.first, t.other);
    }
  }

  // ----- the log of one class -----

  lemma BeginsClass(rows: seq<Row>, classes: seq<seq<Lit>>, c: nat, representatives: seq<Option<nat>>, open: seq<nat>,
                    n: nat, log: seq<Try>)
    requires c < |classes| && Settled(rows, classes[c], representatives, open) && Front(rows, classes[c], open, n)
    requires open != [] && Upto(rows, classes, log, Mark(n, c, 0))
    ensures Upto(rows, classes, log, Mark(n, c, open[0] + 1))
  {
    hide Upto, Settled, Front, Kinds;
    forall t | Due(rows, classes, t) && Less(Place(rows, classes, t), Mark(n, c, open[0] + 1))
      ensures Less(Place(rows, classes, t), Mark(n, c, 0))
    {
      if !Less(Place(rows, classes, t), Mark(n, c, 0)) { DueIsNext(rows, classes, representatives, open, n, t); }
    }
    UptoSkips(rows, classes, log, Mark(n, c, 0), Mark(n, c, open[0] + 1));
  }

  lemma LogsTry(rows: seq<Row>, classes: seq<seq<Lit>>, c: nat, representatives: seq<Option<nat>>, open: seq<nat>,
                n: nat, log: seq<Try>, p: nat)
    requires c < |classes| && Settled(rows, classes[c], representatives, open) && Front(rows, classes[c], open, n)
    requires 1 <= p < |open| && Upto(rows, classes, log, Mark(n, c, open[p - 1] + 1))
    ensures Due(rows, classes, Try(c, open[0], open[p]))
    ensures Upto(rows, classes, log + [Try(c, open[0], open[p])], Mark(n, c, open[p] + 1))
  {
    OpenGaps(rows, classes[c], representatives, open, p);
    hide Upto, Settled, Front, Kinds;
    forall t | Due(rows, classes, t) && Less(Place(rows, classes, t), Mark(n, c, open[p]))
      ensures Less(Place(rows, classes, t), Mark(n, c, open[p - 1] + 1))
    {
      if !Less(Place(rows, classes, t), Mark(n, c, open[p - 1] + 1)) {
        DueIsNext(rows, classes, representatives, open, n, t);
      }
    }
    UptoSkips(rows, classes, log, Mark(n, c, open[p - 1] + 1), Mark(n, c, open[p]));
    OpenIsDue(rows, classes, c, representatives, open, n, p);
    UptoAdds(rows, classes, log, Mark(n, c, open[p]), Try(c, open[0], open[p]));
  }

  lemma OpenGaps(rows: seq<Row>, members: seq<Lit>, representatives: seq<Option<nat>>, open: seq<nat>, p: nat)
    requires Settled(rows, members, representatives, open) && 1 <= p < |open|
    ensures open[p - 1] < open[p] && forall i :: i in open ==> i <= open[p - 1] || i >= open[p]
  {
    hide Same, FirstOfKind;
    forall i | i in open ensures i <= open[p - 1] || i >= open[p] {
      var q :| 0 <= q < |open| && open[q] == i;
      assert q < p - 1 ==> open[q] < open[p - 1];
      assert q > p ==> open[p] < open[q];
    }
  }

  lemma OpenEnds(rows: seq<Row>, members: seq<Lit>, representatives: seq<Option<nat>>, open: seq<nat>)
    requires Settled(rows, members, representatives, open) && open != []
    ensures forall i :: i in open ==> i <= open[|open| - 1]
  {
    hide Assigned, Same, FirstOfKind;
  }

  lemma EndsClass(rows: seq<Row>, classes: seq<seq<Lit>>, c: nat, representatives: seq<Option<nat>>, open: seq<nat>,
                  n: nat, log: seq<Try>)
    requires c < |classes| && Settled(rows, classes[c], representatives, open) && Front(rows, classes[c], open, n)
    requires open != [] && Upto(rows, classes, log, Mark(n, c, open[|open| - 1] + 1))
    ensures Upto(rows, classes, log, Mark(n, c + 1, 0))
  {
    OpenEnds(rows, classes[c], representatives, open);
    hide Upto, Settled, Front, Kinds, FirstOfKind, Same;
    var mark := Mark(n, c, open[|open| - 1] + 1);
    forall t | Due(rows, classes, t) && Less(Place(rows, classes, t), Mark(n, c + 1, 0))
      ensures Less(Place(rows, classes, t), mark)
    {
      if !Less(Place(rows, classes, t), mark) { DueIsNext(rows, classes, representatives, open, n, t); }
    }
    UptoSkips(rows, classes, log, mark, Mark(n, c + 1, 0));
  }

  lemma PassesClass(rows: seq<Row>, classes: seq<seq<Lit>>, c: nat, representatives: seq<Option<nat>>, open: seq<nat>,
                    n: nat, log: seq<Try>)
    requires c < |classes| && Settled(rows, classes[c], representatives, open) && SweptTo(rows, classes[c], open, n)
    requires |open| < 2 && Upto(rows, classes, log, Mark(n, c, 0))
    ensures Upto(rows, classes, log, Mark(n, c + 1, 0))
  {
    hide Upto, Settled, SweptTo, Kinds;
    forall t | Due(rows, classes, t) && Less(Place(rows, classes, t), Mark(n, c + 1, 0))
      ensures Less(Place(rows, classes, t), Mark(n, c, 0))
    {
      if !Less(Place(rows, classes, t), Mark(n, c, 0)) { NothingDue(rows, classes, representatives, open, n, t); }
    }
    UptoSkips(rows, classes, log, Mark(n, c, 0), Mark(n, c + 1, 0));
  }

  lemma EndsRound(rows: seq<Row>, classes: seq<seq<Lit>>, n: nat, log: seq<Try>)
    requires Upto(rows, classes, log, Mark(n, |classes|, 0))
    ensures Upto(rows, classes, log, Mark(n + 1, 0, 0))
  {
    UptoSkips(rows, classes, log, Mark(n, |classes|, 0), Mark(n + 1, 0, 0));
  }

  /** Once no class has two open members, no later round has a pair to try. */
  lemma EndsRun(rows: seq<Row>, classes: seq<seq<Lit>>, representatives: seq<seq<Option<nat>>>, open: seq<seq<nat>>,
                n: nat, rounds: nat, log: seq<Try>)
    requires |representatives| == |open| == |classes| && n <= rounds
    requires forall c :: 0 <= c < |classes| ==>
               |open[c]| < 2 && Settled(rows, classes[c], representatives[c], open[c])
               && SweptTo(rows, classes[c], open[c], n)
    requires Upto(rows, classes, log, Mark(n, 0, 0))
    ensures Upto(rows, classes, log, Mark(rounds, 0, 0))
  {
    hide Upto, Settled, SweptTo, Kinds;
    forall t | Due(rows, classes, t) && Less(Place(rows, classes, t), Mark(rounds, 0, 0))
      ensures Less(Place(rows, classes, t), Mark(n, 0, 0))
    {
      NothingDue(rows, classes, representatives[t.group], open[t.group], n, t);
    }
    UptoSkips(rows, classes, log, Mark(n, 0, 0), Mark(rounds, 0, 0));
  }

  // ----- what the log says of the results -----

  lemma RecordsSame(rows: seq<Row>, members: seq<Lit>, representatives: seq<Option<nat>>, log: seq<Try>, c: nat,
                    first: nat, other: nat)
    requires Recorded(rows, members, representatives, log, c) && first < |members| && other < |members|
    requires representatives[other].None? && Same(rows, members[first], members[other])
    ensures Recorded(rows, members, representatives[other := Some(first)], log + [Try(c, first, other)], c)
  {
    hide Same;
  }

  lemma RecordsOther(rows: seq<Row>, members: seq<Lit>, representatives: seq<Option<nat>>, log: seq<Try>, c: nat,
                     t: Try)
    requires Recorded(rows, members, representatives, log, c)
    requires t.group == c ==>
               t.first < |members| && t.other < |members| && !Same(rows, members[t.first], members[t.other])
    ensures Recorded(rows, members, representatives, log + [t], c)
  {
    hide Same;
  }

  lemma RecordedAt(rows: seq<Row>, classes: seq<seq<Lit>>, representatives: seq<seq<Option<nat>>>, log: seq<Try>,
                   c: nat)
    requires AllRecorded(rows, classes, representatives, log) && c < |classes|
    ensures |representatives| == |classes| && Recorded(rows, classes[c], representatives[c], log, c)
  {
  }

  /** The tries of one class say nothing of the others. */
  lemma RecordsElsewhere(rows: seq<Row>, classes: seq<seq<Lit>>, representatives: seq<seq<Option<nat>>>, log: seq<Try>,
                         more: seq<Try>, c: nat, row: seq<Option<nat>>)
    requires AllRecorded(rows, classes, representatives, log) && c < |classes|
    requires (forall t :: t in more ==> t.group == c) && Recorded(rows, classes[c], row, log + more, c)
    ensures AllRecorded(rows, classes, representatives[c := row], log + more)
  {
    hide Same;
  }

  lemma {:induction false} AnswersJoin(rows: seq<Row>, classes: seq<seq<Lit>>, found: seq<Refutation>, log: seq<Try>,
                                       more: seq<Refutation>, added: seq<Try>)
    requires Answers(rows, classes, found, log) && Answers(rows, classes, more, added)
    ensures Answers(rows, classes, found + more, log + added)
    decreases |added|
  {
    hide Due, Agree, Separates;
    if added == [] {
      assert log + added == log && found + more == found;
    } else {
      var last := |added| - 1;
      assert (log + added)[..|log| + last] == log + added[..last];
      if Agree(rows, classes, added[last]) {
        AnswersJoin(rows, classes, found, log, more, added[..last]);
      } else {
        var left := more[..|more| - 1];
        AnswersJoin(rows, classes, found, log, left, added[..last]);
        assert (found + more)[..|found| + |left|] == found + left;
      }
    }
  }

  lemma NoAnswers(rows: seq<Row>, classes: seq<seq<Lit>>)
    ensures Answers(rows, classes, [], [])
  {
  }

  lemma AnswersSame(rows: seq<Row>, classes: seq<seq<Lit>>, found: seq<Refutation>, log: seq<Try>, t: Try)
    requires Answers(rows, classes, found, log) && Due(rows, classes, t)
    requires Same(rows, classes[t.group][t.first], classes[t.group][t.other])
    ensures Answers(rows, classes, found, log + [t])
  {
    assert (log + [t])[..|log|] == log;
  }

  lemma AnswersDiffer(rows: seq<Row>, classes: seq<seq<Lit>>, found: seq<Refutation>, log: seq<Try>, t: Try,
                      refutation: Refutation)
    requires Answers(rows, classes, found, log) && Due(rows, classes, t)
    requires Separates(refutation, rows, classes[t.group][t.first], classes[t.group][t.other])
    ensures Answers(rows, classes, found + [refutation], log + [t])
  {
    SeparatesIsNotSame(refutation, rows, classes[t.group][t.first], classes[t.group][t.other]);
    assert (log + [t])[..|log|] == log && (found + [refutation])[..|found|] == found;
  }

  /** Every refutation answers some pair. */
  lemma {:induction false} AnswersRefute(rows: seq<Row>, classes: seq<seq<Lit>>, found: seq<Refutation>, log: seq<Try>)
    requires Answers(rows, classes, found, log)
    ensures forall r :: 0 <= r < |found| ==> AnyRefuted(found[r], rows, classes)
    decreases |log|
  {
    hide Agree, Separates;
    if log != [] {
      var last := |log| - 1;
      var t := log[last];
      if Agree(rows, classes, t) {
        AnswersRefute(rows, classes, found, log[..last]);
      } else {
        AnswersRefute(rows, classes, found[..|found| - 1], log[..last]);
        assert Refuted(found[|found| - 1], rows, classes[t.group]);
      }
    }
  }

  ghost predicate Refuted(refutation: Refutation, rows: seq<Row>, members: seq<Lit>) {
    exists j, i :: 0 <= j < i < |members| && Separates(refutation, rows, members[j], members[i])
  }

  ghost predicate AnyRefuted(refutation: Refutation, rows: seq<Row>, classes: seq<seq<Lit>>) {
    exists c :: 0 <= c < |classes| && Refuted(refutation, rows, classes[c])
  }

  /** The result of `rounds` rounds: a member is assigned exactly when it is equivalent to
      the first member of one of the first `rounds` kinds, and then to that member. */
  ghost predicate Determined(rows: seq<Row>, members: seq<Lit>, representatives: seq<Option<nat>>, rounds: nat) {
    && |representatives| == |members|
    && forall i, j :: 0 <= j < |members| && 0 <= i < |members| ==>
         (representatives[i] == Some(j) <==>
            j < i && FirstOfKind(rows, members, j) && Same(rows, members[j], members[i])
                && Kinds(rows, members, j) < rounds)
  }

  /** A run that was not cut short determines every assignment. */
  lemma CompleteDetermines(rows: seq<Row>, classes: seq<seq<Lit>>, representatives: seq<seq<Option<nat>>>,
                           rounds: nat, log: seq<Try>, c: nat)
    requires Schedule(rows, classes, rounds, log) && Complete(rows, classes, rounds, log)
    requires AllRecorded(rows, classes, representatives, log) && c < |classes|
    ensures Determined(rows, classes[c], representatives[c], rounds)
  {
    var members := classes[c];
    forall i, j | 0 <= j < |members| && 0 <= i < |members|
      ensures representatives[c][i] == Some(j) <==>
                j < i && FirstOfKind(rows, members, j) && Same(rows, members[j], members[i])
                && Kinds(rows, members, j) < rounds
    {
      assert Recorded(rows, members, representatives[c], log, c);
      if j < i && FirstOfKind(rows, members, j) && Same(rows, members[j], members[i]) {
        StillNew(rows, members, j, i);
        assert Due(rows, classes, Try(c, j, i));
      }
    }
  }

  lemma StillNew(rows: seq<Row>, members: seq<Lit>, j: nat, i: nat)
    requires j < |members| && i < |members| && FirstOfKind(rows, members, j) && Same(rows, members[j], members[i])
    ensures forall k :: 0 <= k < j ==> !Same(rows, members[k], members[i])
  {
    hide Same;
    SameBack(rows, members[j], members[i]);
    forall k | 0 <= k < j ensures !Same(rows, members[k], members[i]) {
      if Same(rows, members[k], members[i]) { SameTwice(rows, members[k], members[i], members[j]); }
    }
  }

  /** Exactly the first members of their kind have no representative. */
  ghost predicate Split(rows: seq<Row>, members: seq<Lit>, representatives: seq<Option<nat>>) {
    && |representatives| == |members|
    && forall i :: 0 <= i < |members| ==> (representatives[i].None? <==> FirstOfKind(rows, members, i))
  }

  /** Enough rounds split a class completely. */
  lemma SplitCompletely(rows: seq<Row>, members: seq<Lit>, representatives: seq<Option<nat>>, rounds: nat)
    requires Determined(rows, members, representatives, rounds) && Assigned(rows, members, representatives)
    requires |members| <= rounds + 1
    ensures Split(rows, members, representatives)
  {
    hide Same;
    forall i | 0 <= i < |members| ensures representatives[i].None? <==> FirstOfKind(rows, members, i) {
      if !FirstOfKind(rows, members, i) {
        var k := FirstSame(rows, members, i);
        KindsBound(rows, members, k);
        assert representatives[i] == Some(k);
      }
    }
  }

  lemma {:induction false} KindsBound(rows: seq<Row>, members: seq<Lit>, j: nat)
    requires j <= |members|
    ensures Kinds(rows, members, j) <= j
  {
    if j > 0 { KindsBound(rows, members, j - 1); }
  }

  /** The first member equivalent to member `i`. */
  lemma FirstSame(rows: seq<Row>, members: seq<Lit>, i: nat) returns (j: nat)
    requires i < |members| && !FirstOfKind(rows, members, i)
    ensures j < i && FirstOfKind(rows, members, j) && Same(rows, members[j], members[i])
    decreases i
  {
    hide Same;
    var k: nat :| k < i && Same(rows, members[k], members[i]);
    j := k;
    if !FirstOfKind(rows, members, k) {
      j := FirstSame(rows, members, k);
      SameTwice(rows, members[j], members[k], members[i]);
    }
  }

  // ----- one outcome -----

  /** Two runs over the same classes try the same pairs for as long as both last. */
  lemma {:induction false} SamePairs(rows: seq<Row>, classes: seq<seq<Lit>>, rounds: nat, log: seq<Try>,
                                     other: seq<Try>, x: nat)
    requires Schedule(rows, classes, rounds, log) && Schedule(rows, classes, rounds, other)
    requires x < |log| && x < |other|
    ensures log[x] == other[x]
  {
    hide Due;
    forall y: nat | y < x ensures log[y] == other[y] { SamePairs(rows, classes, rounds, log, other, y); }
    assert log[x] in log && other[x] in other;
    EarlierDiffers(rows, classes, log, other, x);
    EarlierDiffers(rows, classes, other, log, x);
    if Place(rows, classes, log[x]) == Place(rows, classes, other[x]) {
      SamePlace(rows, classes, log[x], other[x]);
    }
  }

  lemma EarlierDiffers(rows: seq<Row>, classes: seq<seq<Lit>>, log: seq<Try>, other: seq<Try>, x: nat)
    requires InOrder(rows, classes, log) && InOrder(rows, classes, other) && x < |log| && x < |other|
    requires forall y :: 0 <= y < x ==> log[y] == other[y]
    ensures forall y :: 0 <= y < |other| && Less(Place(rows, classes, other[y]), Place(rows, classes, other[x])) ==>
              other[y] != log[x]
  {
    hide Due;
    forall y | 0 <= y < |other| && Less(Place(rows, classes, other[y]), Place(rows, classes, other[x]))
      ensures other[y] != log[x]
    {
      assert y < x;
      assert Less(Place(rows, classes, log[y]), Place(rows, classes, log[x]));
    }
  }

  /** A run spends its budget or tries everything. */
  ghost predicate Run(rows: seq<Row>, classes: seq<seq<Lit>>, rounds: nat, maxPairs: nat, log: seq<Try>) {
    && |log| <= maxPairs && Schedule(rows, classes, rounds, log)
    && (|log| < maxPairs ==> Complete(rows, classes, rounds, log))
  }

  /** Whichever solver decides the pairs, the same budgets give the same representatives. */
  lemma OneOutcome(rows: seq<Row>, classes: seq<seq<Lit>>, rounds: nat, maxPairs: nat, log: seq<Try>, other: seq<Try>,
                   representatives: seq<seq<Option<nat>>>, others: seq<seq<Option<nat>>>)
    requires Run(rows, classes, rounds, maxPairs, log) && Run(rows, classes, rounds, maxPairs, other)
    requires AllRecorded(rows, classes, representatives, log) && AllRecorded(rows, classes, others, other)
    ensures log == other && representatives == others
  {
    NoShorter(rows, classes, rounds, maxPairs, log, other);
    NoShorter(rows, classes, rounds, maxPairs, other, log);
    forall x | 0 <= x < |log| ensures log[x] == other[x] { SamePairs(rows, classes, rounds, log, other, x); }
    forall c | 0 <= c < |classes| ensures representatives[c] == others[c] {
      RecordedOnce(rows, classes[c], representatives[c], others[c], log, c);
    }
  }

  lemma NoShorter(rows: seq<Row>, classes: seq<seq<Lit>>, rounds: nat, maxPairs: nat, log: seq<Try>, other: seq<Try>)
    requires Run(rows, classes, rounds, maxPairs, log) && Run(rows, classes, rounds, maxPairs, other)
    ensures |log| >= |other|
  {
    hide Due;
    if |log| < |other| {
      var t := other[|log|];
      assert t in other;
      var x :| 0 <= x < |log| && log[x] == t;
      SamePairs(rows, classes, rounds, log, other, x);
    }
  }

  lemma RecordedOnce(rows: seq<Row>, members: seq<Lit>, representatives: seq<Option<nat>>, others: seq<Option<nat>>,
                     log: seq<Try>, c: nat)
    requires Recorded(rows, members, representatives, log, c) && Recorded(rows, members, others, log, c)
    ensures representatives == others
  {
    hide Same;
    forall i | 0 <= i < |members| ensures representatives[i] == others[i] {
      if representatives[i].Some? { assert others[i] == Some(representatives[i].value); }
      if others[i].Some? { assert representatives[i] == Some(others[i].value); }
    }
  }
}
