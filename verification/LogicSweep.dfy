/** The budgeted equivalence sweep: candidate classes are split by one
    incremental solver, and whatever the budgets are, every representative it
    reports is the first member of its kind. */
module LogicSweep {
  import opened Lists
  import opened LogicNetwork
  import opened LogicCone
  import opened Cnf
  import opened LogicMiter
  import opened LogicEquivalence
  import opened SweepSchedule

  function BoundaryAssignment(inputs: map<nat, Atom>, model: map<nat, bool>): Refutation {
    map o | o in inputs && inputs[o].v in model :: model[inputs[o].v] != inputs[o].negative
  }

  /** A model of the encoding under a pair of opposite assumptions separates the pair. */
  lemma ModelSeparates(defs: seq<Def>, inputs: map<nat, Atom>, model: map<nat, bool>, x: Atom, y: Atom,
                       rows: seq<Row>, a: Lit, b: Lit)
    requires Defining(defs) && InputsMatch(inputs, defs)
    requires x.v < |defs| && y.v < |defs|
    requires ModelOf(model, Formula(defs), [x, y])
    requires (StandsFor(defs, x, rows, a) && StandsFor(defs, y.Not(), rows, b))
          || (StandsFor(defs, x.Not(), rows, a) && StandsFor(defs, y, rows, b))
    ensures Separates(BoundaryAssignment(inputs, model), rows, a, b)
  {
    hide VarValue, Value, Formula, Defining;
    var refutation := BoundaryAssignment(inputs, model);
    forall env: Boundary | forall o :: o in refutation ==> env(o) == refutation[o]
      ensures LitValue(rows, env, a) != LitValue(rows, env, b)
    {
      var total: Assignment := (v: nat) =>
        if v in model then model[v] else v < |defs| && defs[v].InputDef? && env(defs[v].origin);
      ModelSatisfies(total, model, Formula(defs), [x, y]);
      forall v | 0 <= v < |defs| && defs[v].InputDef? ensures total(v) == env(defs[v].origin) {
        assert inputs[defs[v].origin] == Atom(v, false);
      }
      assert Holds(total, [x, y][0]) && Holds(total, [x, y][1]);
      AssignmentMeaning(defs, env, total, x);
      AssignmentMeaning(defs, env, total, y);
      if StandsFor(defs, x, rows, a) && StandsFor(defs, y.Not(), rows, b) {
        assert AtomValue(defs, env, x) == LitValue(rows, env, a);
        assert AtomValue(defs, env, y.Not()) == LitValue(rows, env, b);
      } else {
        assert AtomValue(defs, env, x.Not()) == LitValue(rows, env, a);
        assert AtomValue(defs, env, y) == LitValue(rows, env, b);
      }
    }
  }

  /** Two refuted assumption pairs leave no boundary that separates the literals. */
  lemma UnsatIsSame(defs: seq<Def>, x: Atom, y: Atom, rows: seq<Row>, a: Lit, b: Lit)
    requires Defining(defs) && StandsFor(defs, x, rows, a) && StandsFor(defs, y, rows, b)
    requires forall s: Assignment :: !(SatisfiesAll(s, Formula(defs)) && HoldsAll(s, [x, y.Not()]))
    requires forall s: Assignment :: !(SatisfiesAll(s, Formula(defs)) && HoldsAll(s, [x.Not(), y]))
    ensures Same(rows, a, b)
  {
    hide VarValue, Value, Formula, Defining, SatisfiesAll;
    forall env: Boundary
      ensures LitValue(rows, env, a) == LitValue(rows, env, b)
    {
      var s := AssignmentOf(defs, env);
      BoundaryMeaning(defs, env);
      assert Holds(s, x) == LitValue(rows, env, a) && Holds(s, y) == LitValue(rows, env, b);
      PairHolds(s, x, y.Not());
      PairHolds(s, x.Not(), y);
    }
  }

  lemma PairHolds(s: Assignment, p: Atom, q: Atom)
    ensures HoldsAll(s, [p, q]) <==> Holds(s, p) && Holds(s, q)
  {
    assert HoldsAll(s, [p, q]) ==> Holds(s, [p, q][0]) && Holds(s, [p, q][1]);
  }

  /** Decides one pair with at most two queries. */
  method ProvePair(miter: Miter, solver: Solver, ghost rows: seq<Row>, ghost a: Lit, ghost b: Lit, x: Atom, y: Atom)
    returns (result: Result<Option<Refutation>>)
    requires Correct(solver) && miter.Valid()
    requires StandsFor(miter.defs, x, rows, a) && StandsFor(miter.defs, y, rows, b)
    modifies miter`queries
    ensures result.Error? ==> result.error == SolverFailure && !NeverFails(solver)
    ensures result == Success(None) ==> Same(rows, a, b)
    ensures result.Success? && result.value.Some? ==> Separates(result.value.value, rows, a, b)
  {
    hide VarValue, Value, Formula, Defining, SatisfiesAll, InputsMatch, Separates, Same;
    var first := miter.Solve(solver, [x, y.Not()]);
    QueryMeaning(solver, miter.queries - 1, miter.clauses, [x, y.Not()]);
    if first.Failed? { return Error(SolverFailure); }
    if first.Sat? {
      ModelSeparates(miter.defs, miter.inputs, first.model, x, y.Not(), rows, a, b);
      return Success(Some(BoundaryAssignment(miter.inputs, first.model)));
    }
    var second := miter.Solve(solver, [x.Not(), y]);
    QueryMeaning(solver, miter.queries - 1, miter.clauses, [x.Not(), y]);
    if second.Failed? { return Error(SolverFailure); }
    if second.Sat? {
      ModelSeparates(miter.defs, miter.inputs, second.model, x.Not(), y, rows, a, b);
      return Success(Some(BoundaryAssignment(miter.inputs, second.model)));
    }
    UnsatIsSame(miter.defs, x, y, rows, a, b);
    result := Success(None);
  }

  lemma QueryMeaning(solver: Solver, n: nat, clauses: seq<Clause>, assumptions: seq<Atom>)
    requires Correct(solver)
    ensures match solver(n, clauses, assumptions)
            case Sat(model) => ModelOf(model, clauses, assumptions)
            case Unsat => forall a: Assignment :: !(SatisfiesAll(a, clauses) && HoldsAll(a, assumptions))
            case Failed => !NeverFails(solver)
  {
  }

  // ----- one class, swept once -----

  function CountSome<T>(s: seq<Option<T>>): nat {
    if s == [] then 0 else CountSome(s[..|s| - 1]) + if s[|s| - 1].Some? then 1 else 0
  }

  lemma {:induction false} CountUpdate<T>(s: seq<Option<T>>, i: nat, x: T)
    requires i < |s| && s[i].None?
    ensures CountSome(s[i := Some(x)]) == CountSome(s) + 1
    decreases |s|
  {
    var last := |s| - 1;
    var t := s[i := Some(x)];
    if i == last {
      assert t[..last] == s[..last];
    } else {
      assert t[..last] == s[..last][i := Some(x)];
      CountUpdate(s[..last], i, x);
    }
  }

  datatype Status = Finished | Exhausted | Broken

  /** One round over one class: the first open member against all others. */
  method SweepClass(miter: Miter, solver: Solver, ghost rows: seq<Row>, ghost classes: seq<seq<Lit>>, ghost c: nat,
                    members: seq<Lit>, atoms: seq<Atom>, before: seq<Option<nat>>, open: seq<nat>, ghost round: nat,
                    pairs: nat, maxPairs: nat, ghost log: seq<Try>)
    returns (status: Status, representatives: seq<Option<nat>>, remaining: seq<nat>, pairCount: nat,
        refutations: seq<Refutation>, ghost added: seq<Try>)
    requires Correct(solver) && miter.Valid() && AllStandFor(miter.defs, atoms, rows, members)
    requires Settled(rows, members, before, open) && |open| >= 2 && pairs <= maxPairs
    requires c < |classes| && members == classes[c] && Front(rows, members, open, round)
    requires Upto(rows, classes, log, Mark(round, c, 0)) && Recorded(rows, members, before, log, c)
    modifies miter`queries
    ensures Assigned(rows, members, representatives)
    ensures pairs <= pairCount <= maxPairs && |added| == pairCount - pairs
    ensures CountSome(representatives) + |refutations| == CountSome(before) + pairCount - pairs
    ensures (forall t :: t in added ==> t.group == c) && Answers(rows, classes, refutations, added)
    ensures Recorded(rows, members, representatives, log + added, c)
    ensures Schedule(rows, classes, round + 1, log + added)
    ensures status.Finished? ==>
              && Settled(rows, members, representatives, remaining) && |remaining| < |open|
              && Front(rows, members, remaining, round + 1) && Upto(rows, classes, log + added, Mark(round, c + 1, 0))
    ensures status.Exhausted? ==> pairCount == maxPairs
    ensures status.Broken? ==> !NeverFails(solver)
  {
    hide VarValue, Value, Formula, Defining, SatisfiesAll, InputsMatch, StandsFor, Separates, Same, Settled, Midway,
        Assigned, Front, Upto, Recorded, Schedule, Due, Answers;
    var first := open[0];
    OpenMembers(rows, members, before, open);
    representatives, remaining, pairCount, refutations, added := before, [], pairs, [], [];
    MidwayStart(rows, members, before, open);
    BeginsClass(rows, classes, c, before, open, round, log);
    NoAnswers(rows, classes);
    assert log + added == log;
    for p := 1 to |open|
      invariant pairs <= pairCount <= maxPairs && |added| == pairCount - pairs
      invariant CountSome(representatives) + |refutations| == CountSome(before) + pairCount - pairs
      invariant (forall t :: t in added ==> t.group == c) && Answers(rows, classes, refutations, added)
      invariant Midway(rows, members, before, open, representatives, remaining, p)
      invariant Upto(rows, classes, log + added, Mark(round, c, open[p - 1] + 1))
      invariant Recorded(rows, members, representatives, log + added, c)
    {
      var alternative := open[p];
      UptoSchedules(rows, classes, log + added, Mark(round, c, open[p - 1] + 1), round + 1);
      if pairCount == maxPairs {
        MidwayAssigned(rows, members, before, open, representatives, remaining, p);
        return Exhausted, representatives, remaining, pairCount, refutations, added;
      }
      pairCount := pairCount + 1;
      var answer := ProvePair(miter, solver, rows, members[first], members[alternative], atoms[first],
          atoms[alternative]);
      ghost var t := Try(c, first, alternative);
      LogsTry(rows, classes, c, before, open, round, log + added, p);
      assert log + (added + [t]) == log + added + [t];
      match answer {
        case Error(_) =>
          MidwayAssigned(rows, members, before, open, representatives, remaining, p);
          pairCount := pairCount - 1;
          return Broken, representatives, remaining, pairCount, refutations, added;
        case Success(None) =>
          AnswersSame(rows, classes, refutations, added, t);
          MidwaySame(rows, members, before, open, representatives, remaining, p);
          RecordsSame(rows, members, representatives, log + added, c, first, alternative);
          CountUpdate(representatives, alternative, first);
          representatives := representatives[alternative := Some(first)];
        case Success(Some(refutation)) =>
          SeparatesIsNotSame(refutation, rows, members[first], members[alternative]);
          AnswersDiffer(rows, classes, refutations, added, t, refutation);
          MidwayDiffers(rows, members, before, open, representatives, remaining, p);
          RecordsOther(rows, members, representatives, log + added, c, t);
          refutations := refutations + [refutation];
          remaining := remaining + [alternative];
      }
      added := added + [t];
    }
    MidwayAssigned(rows, members, before, open, representatives, remaining, |open|);
    MidwayDone(rows, members, before, open, representatives, remaining);
    FirstsRemain(rows, members, before, open, representatives, remaining);
    FrontMoves(rows, members, before, open, remaining, round);
    EndsClass(rows, classes, c, before, open, round, log + added);
    UptoSchedules(rows, classes, log + added, Mark(round, c + 1, 0), round + 1);
    status := Finished;
  }

  /** Inside a round, after `p` open members have been looked at. */
  ghost predicate Midway(rows: seq<Row>, members: seq<Lit>, before: seq<Option<nat>>, open: seq<nat>,
                         representatives: seq<Option<nat>>, remaining: seq<nat>, p: nat)
    requires 1 <= p <= |open|
  {
    && |representatives| == |members| && |before| == |members|
    && (forall i :: 0 <= i < |members| && !(i in open[1..p] && i !in remaining) ==> representatives[i] == before[i])
    && (forall i :: i in open[1..p] && i !in remaining && i < |members| && open[0] < |members| ==>
          representatives[i] == Some(open[0]) && Same(rows, members[open[0]], members[i]))
    && (forall i :: i in remaining ==>
          i in open[1..p] && i < |members| && open[0] < |members| && !Same(rows, members[open[0]], members[i]))
    && Ascending(remaining) && |remaining| < p
  }

  lemma MidwayAssigned(rows: seq<Row>, members: seq<Lit>, before: seq<Option<nat>>, open: seq<nat>,
                       representatives: seq<Option<nat>>, remaining: seq<nat>, p: nat)
    requires Settled(rows, members, before, open) && 1 <= p <= |open|
    requires Midway(rows, members, before, open, representatives, remaining, p)
    ensures Assigned(rows, members, representatives)
  {
    hide Same;
    FirstIsFirst(rows, members, before, open);
    assert forall i :: i in open[1..p] ==> i in open && open[0] < i;
  }

  lemma OpenMembers(rows: seq<Row>, members: seq<Lit>, representatives: seq<Option<nat>>, open: seq<nat>)
    requires Settled(rows, members, representatives, open)
    ensures |representatives| == |members|
    ensures forall p :: 0 <= p < |open| ==> open[p] < |members| && representatives[open[p]].None?
    ensures forall p :: 0 < p < |open| ==> open[0] < open[p]
  {
    hide Same;
    forall p | 0 <= p < |open| ensures open[p] in open {}
  }

  lemma MidwayStart(rows: seq<Row>, members: seq<Lit>, before: seq<Option<nat>>, open: seq<nat>)
    requires Settled(rows, members, before, open) && 1 <= |open|
    ensures Midway(rows, members, before, open, before, [], 1)
  {
    hide Same;
  }

  /** Member `open[p]` has not been touched when its turn comes. */
  lemma TurnIsFresh(open: seq<nat>, p: nat)
    requires Ascending(open) && 1 <= p < |open|
    ensures open[p] !in open[1..p]
    ensures forall i :: i in open[1..p + 1] <==> i in open[1..p] || i == open[p]
    ensures forall i :: i in open[1..p] ==> i < open[p]
  {
    assert open[1..p + 1] == open[1..p] + [open[p]];
  }

  lemma MidwaySame(rows: seq<Row>, members: seq<Lit>, before: seq<Option<nat>>, open: seq<nat>,
                   representatives: seq<Option<nat>>, remaining: seq<nat>, p: nat)
    requires Settled(rows, members, before, open) && 1 <= p < |open|
    requires Midway(rows, members, before, open, representatives, remaining, p)
    requires open[0] < |members| && open[p] < |members| && Same(rows, members[open[0]], members[open[p]])
    ensures |representatives| == |members| && representatives[open[p]].None?
    ensures Midway(rows, members, before, open, representatives[open[p] := Some(open[0])], remaining, p + 1)
  {
    hide Same;
    TurnIsFresh(open, p);
    assert open[p] in open;
  }

  lemma MidwayDiffers(rows: seq<Row>, members: seq<Lit>, before: seq<Option<nat>>, open: seq<nat>,
                      representatives: seq<Option<nat>>, remaining: seq<nat>, p: nat)
    requires Settled(rows, members, before, open) && 1 <= p < |open|
    requires Midway(rows, members, before, open, representatives, remaining, p)
    requires open[0] < |members| && open[p] < |members| && !Same(rows, members[open[0]], members[open[p]])
    ensures Midway(rows, members, before, open, representatives, remaining + [open[p]], p + 1)
  {
    hide Same;
    TurnIsFresh(open, p);
    var remaining' := remaining + [open[p]];
    assert forall i :: i in remaining' <==> i in remaining || i == open[p];
    forall i, j | 0 <= i < j < |remaining'| ensures remaining'[i] < remaining'[j] {
      assert remaining'[i] == remaining[i];
      assert remaining[i] in remaining;
    }
  }

  lemma MidwayDone(rows: seq<Row>, members: seq<Lit>, before: seq<Option<nat>>, open: seq<nat>,
                   representatives: seq<Option<nat>>, remaining: seq<nat>)
    requires Settled(rows, members, before, open) && 1 <= |open|
    requires Midway(rows, members, before, open, representatives, remaining, |open|)
    ensures Settled(rows, members, representatives, remaining) && |remaining| < |open|
  {
    hide Same;
    MidwayAssigned(rows, members, before, open, representatives, remaining, |open|);
    FirstIsFirst(rows, members, before, open);
    OpenSplit(open);
    forall i, k | i in remaining && 0 <= k < |members| && k !in remaining
      ensures !Same(rows, members[k], members[i])
    {
      StillDifferent(rows, members, before, open, representatives, remaining, i, k);
    }
    forall k | 0 <= k < |members| && k !in remaining && representatives[k].None?
      ensures FirstOfKind(rows, members, k)
    {
    }
  }

  /** Of the first members of a kind, only the representative leaves. */
  lemma FirstsRemain(rows: seq<Row>, members: seq<Lit>, before: seq<Option<nat>>, open: seq<nat>,
                     representatives: seq<Option<nat>>, remaining: seq<nat>)
    requires Settled(rows, members, before, open) && 1 <= |open|
    requires Midway(rows, members, before, open, representatives, remaining, |open|)
    ensures forall j: nat :: j < |members| && FirstOfKind(rows, members, j) ==>
              (j in remaining <==> j in open && j != open[0])
  {
    hide Same;
    OpenSplit(open);
    assert forall i :: i in open[1..] ==> open[0] < i && i < |members|;
  }

  lemma OpenSplit(open: seq<nat>)
    requires open != []
    ensures open[1..|open|] == open[1..]
    ensures forall k :: k in open <==> k == open[0] || k in open[1..]
  {
    assert open == [open[0]] + open[1..];
  }

  lemma StillDifferent(rows: seq<Row>, members: seq<Lit>, before: seq<Option<nat>>, open: seq<nat>,
                       representatives: seq<Option<nat>>, remaining: seq<nat>, i: nat, k: nat)
    requires Settled(rows, members, before, open) && 1 <= |open|
    requires Midway(rows, members, before, open, representatives, remaining, |open|)
    requires i in remaining && k < |members| && k !in remaining
    ensures i < |members| && !Same(rows, members[k], members[i])
  {
    hide Same;
    OpenSplit(open);
    if k in open && k != open[0] {
      SameSwap(rows, members[open[0]], members[k], members[i]);
    }
  }

  // ----- all classes -----

  function Flatten(classes: seq<seq<Lit>>): seq<Lit> {
    if classes == [] then [] else classes[0] + Flatten(classes[1..])
  }

  /** Where the members of class `c` start among the flattened outputs. */
  function Offset(classes: seq<seq<Lit>>, c: nat): nat
    requires c <= |classes|
  {
    if c == 0 then 0 else |classes[0]| + Offset(classes[1..], c - 1)
  }

  lemma {:induction false} FlattenSlice(classes: seq<seq<Lit>>, c: nat)
    requires c < |classes|
    ensures Offset(classes, c) + |classes[c]| <= |Flatten(classes)|
    ensures Flatten(classes)[Offset(classes, c)..Offset(classes, c) + |classes[c]|] == classes[c]
  {
    var head, tail := classes[0], Flatten(classes[1..]);
    if c == 0 {
      assert (head + tail)[0..|head|] == head;
    } else {
      FlattenSlice(classes[1..], c - 1);
      var o := Offset(classes[1..], c - 1);
      assert (head + tail)[|head| + o..|head| + o + |classes[c]|] == tail[o..o + |classes[c]|];
    }
  }

  function Unassigned(classes: seq<seq<Lit>>): seq<seq<Option<nat>>> {
    seq(|classes|, c requires 0 <= c < |classes| => seq(|classes[c]|, _ => None))
  }

  function CountAll(representatives: seq<seq<Option<nat>>>): nat {
    if representatives == [] then 0
    else CountAll(representatives[..|representatives| - 1]) + CountSome(representatives[|representatives| - 1])
  }

  lemma {:induction false} CountReplace(r: seq<seq<Option<nat>>>, c: nat, row: seq<Option<nat>>)
    requires c < |r|
    ensures CountAll(r[c := row]) + CountSome(r[c]) == CountAll(r) + CountSome(row)
    decreases |r|
  {
    var last := |r| - 1;
    var t := r[c := row];
    if c == last {
      assert t[..last] == r[..last];
    } else {
      assert t[..last] == r[..last][c := row];
      CountReplace(r[..last], c, row);
    }
  }

  lemma {:induction false} CountNone(n: nat)
    ensures CountSome(seq<Option<nat>>(n, _ => None)) == 0
  {
    if n > 0 {
      CountNone(n - 1);
      assert seq<Option<nat>>(n, _ => None)[..n - 1] == seq<Option<nat>>(n - 1, _ => None);
    }
  }

  lemma {:induction false} CountUnassigned(classes: seq<seq<Lit>>)
    ensures CountAll(Unassigned(classes)) == 0
    decreases |classes|
  {
    if classes != [] {
      var last := |classes| - 1;
      CountUnassigned(classes[..last]);
      assert Unassigned(classes)[..last] == Unassigned(classes[..last]);
      CountNone(|classes[last]|);
    }
  }

  ghost predicate AllAssigned(rows: seq<Row>, classes: seq<seq<Lit>>, representatives: seq<seq<Option<nat>>>) {
    && |representatives| == |classes|
    && forall c :: 0 <= c < |classes| ==> Assigned(rows, classes[c], representatives[c])
  }

  ghost predicate AllSettled(rows: seq<Row>, classes: seq<seq<Lit>>, representatives: seq<seq<Option<nat>>>,
                             open: seq<seq<nat>>) {
    && |representatives| == |classes| == |open|
    && forall c :: 0 <= c < |classes| ==> Settled(rows, classes[c], representatives[c], open[c])
  }

  lemma SettledIsAssigned(rows: seq<Row>, classes: seq<seq<Lit>>, representatives: seq<seq<Option<nat>>>,
                          open: seq<seq<nat>>)
    requires AllSettled(rows, classes, representatives, open)
    ensures AllAssigned(rows, classes, representatives)
    ensures forall c :: 0 <= c < |classes| ==> |representatives[c]| == |classes[c]|
  {
    hide Same;
  }

  lemma StartsSettled(rows: seq<Row>, members: seq<Lit>)
    ensures Settled(rows, members, seq(|members|, _ => None), Indices(|members|))
  {
    hide Same, Indices;
    var open := Indices(|members|);
    forall k | 0 <= k < |members| ensures k in open { assert open[k] == k; }
  }

  predicate Trivial(classes: seq<seq<Lit>>, maxRepresentatives: nat, maxPairs: nat) {
    Flatten(classes) == [] || maxRepresentatives == 0 || maxPairs == 0
  }

  /** Classes before `done` have been swept once more than the others. */
  ghost predicate AllSwept(rows: seq<Row>, classes: seq<seq<Lit>>, open: seq<seq<nat>>, rounds: nat, done: nat) {
    && |open| == |classes|
    && forall c :: 0 <= c < |classes| ==>
         SweptTo(rows, classes[c], open[c], if c < done then rounds + 1 else rounds)
  }

  lemma AllSweptStart(rows: seq<Row>, classes: seq<seq<Lit>>, open: seq<seq<nat>>)
    requires |open| == |classes| && forall c :: 0 <= c < |classes| ==> open[c] == Indices(|classes[c]|)
    ensures AllSwept(rows, classes, open, 0, 0)
  {
    hide FirstOfKind, Kinds;
    forall c | 0 <= c < |classes| ensures SweptTo(rows, classes[c], open[c], 0) {
      forall j: nat | j < |classes[c]| ensures j in open[c] { assert open[c][j] == j; }
      assert Front(rows, classes[c], open[c], 0);
    }
  }

  lemma AllSweptRound(rows: seq<Row>, classes: seq<seq<Lit>>, open: seq<seq<nat>>, rounds: nat)
    requires AllSwept(rows, classes, open, rounds, |classes|)
    ensures AllSwept(rows, classes, open, rounds + 1, 0)
  {
    hide SweptTo;
  }

  /** One round: every class with at least two open members is swept once. */
  method SweepRound(miter: Miter, solver: Solver, ghost rows: seq<Row>, classes: seq<seq<Lit>>, atoms: seq<Atom>,
                    before: seq<seq<Option<nat>>>, open: seq<seq<nat>>, ghost round: nat, pairs: nat, maxPairs: nat,
                    ghost log: seq<Try>)
    returns (status: Status, advanced: bool, representatives: seq<seq<Option<nat>>>, remaining: seq<seq<nat>>,
             pairCount: nat, refutations: seq<Refutation>, ghost added: seq<Try>)
    requires Correct(solver) && miter.Valid() && AllStandFor(miter.defs, atoms, rows, Flatten(classes))
    requires AllSettled(rows, classes, before, open) && AllSwept(rows, classes, open, round, 0) && pairs <= maxPairs
    requires Upto(rows, classes, log, Mark(round, 0, 0)) && AllRecorded(rows, classes, before, log)
    modifies miter`queries
    ensures AllAssigned(rows, classes, representatives)
    ensures pairs <= pairCount <= maxPairs && |added| == pairCount - pairs
    ensures CountAll(representatives) + |refutations| == CountAll(before) + pairCount - pairs
    ensures Answers(rows, classes, refutations, added) && AllRecorded(rows, classes, representatives, log + added)
    ensures Schedule(rows, classes, round + 1, log + added)
    ensures status.Finished? ==>
              && AllSettled(rows, classes, representatives, remaining)
              && AllSwept(rows, classes, remaining, round + 1, 0)
              && Upto(rows, classes, log + added, Mark(round + 1, 0, 0))
              && (!advanced ==> forall c :: 0 <= c < |classes| ==> |remaining[c]| < 2)
    ensures status.Exhausted? ==> pairCount == maxPairs
    ensures status.Broken? ==> !NeverFails(solver)
  {
    hide VarValue, Value, Formula, Defining, SatisfiesAll, InputsMatch, StandsFor, Separates, Same, Settled, Assigned,
        CountAll, FirstOfKind, SweptTo, Front, Upto, Recorded, Schedule, Due, Answers, AllRecorded;
    advanced, representatives, remaining, pairCount, refutations, added := false, before, open, pairs, [], [];
    NoAnswers(rows, classes);
    assert log + added == log;
    for c := 0 to |classes|
      invariant AllSettled(rows, classes, representatives, remaining)
      invariant AllSwept(rows, classes, remaining, round, c)
      invariant pairs <= pairCount <= maxPairs && |added| == pairCount - pairs
      invariant CountAll(representatives) + |refutations| == CountAll(before) + pairCount - pairs
      invariant Answers(rows, classes, refutations, added) && AllRecorded(rows, classes, representatives, log + added)
      invariant Upto(rows, classes, log + added, Mark(round, c, 0))
      invariant !advanced ==> forall d :: 0 <= d < c ==> |remaining[d]| < 2
    {
      if |remaining[c]| >= 2 {
        advanced := true;
        ClassAtoms(miter.defs, atoms, rows, classes, c);
        var base := Offset(classes, c);
        ghost var earlier := representatives;
        SweptFront(rows, classes[c], remaining[c], round);
        RecordedAt(rows, classes, representatives, log + added, c);
        var row, left, found;
        ghost var more;
        status, row, left, pairCount, found, more :=
          SweepClass(miter, solver, rows, classes, c, classes[c], atoms[base..base + |classes[c]|], representatives[c],
              remaining[c], round, pairCount, maxPairs, log + added);
        CountReplace(representatives, c, row);
        RecordsElsewhere(rows, classes, representatives, log + added, more, c, row);
        representatives := representatives[c := row];
        AnswersJoin(rows, classes, refutations, added, found, more);
        assert log + added + more == log + (added + more);
        refutations, added := refutations + found, added + more;
        SettledIsAssigned(rows, classes, earlier, remaining);
        if !status.Finished? { return; }
        FrontSwept(rows, classes[c], left, round + 1);
        remaining := remaining[c := left];
      } else {
        PassesClass(rows, classes, c, representatives[c], remaining[c], round, log + added);
        SweepRests(rows, classes[c], remaining[c], round);
      }
    }
    AllSweptRound(rows, classes, remaining, round);
    SettledIsAssigned(rows, classes, representatives, remaining);
    EndsRound(rows, classes, round, log + added);
    UptoSchedules(rows, classes, log + added, Mark(round + 1, 0, 0), round + 1);
    status := Finished;
  }

  /** Sweeps round after round, until the rounds, the pairs or the work is used up. */
  method SweepRounds(miter: Miter, solver: Solver, ghost rows: seq<Row>, classes: seq<seq<Lit>>, atoms: seq<Atom>,
                     maxRepresentatives: nat, maxPairs: nat)
    returns (result: Result<seq<seq<Option<nat>>>>, refutations: seq<Refutation>, ghost log: seq<Try>)
    requires Correct(solver) && miter.Valid() && AllStandFor(miter.defs, atoms, rows, Flatten(classes))
    modifies miter`queries
    ensures result.Error? ==> result.error == SolverFailure && !NeverFails(solver)
    ensures |log| <= maxPairs && Schedule(rows, classes, maxRepresentatives, log)
    ensures Answers(rows, classes, refutations, log)
    ensures result.Success? ==>
              && AllAssigned(rows, classes, result.value) && AllRecorded(rows, classes, result.value, log)
              && CountAll(result.value) + |refutations| == |log|
              && (|log| < maxPairs ==> Complete(rows, classes, maxRepresentatives, log))
  {
    hide VarValue, Value, Formula, Defining, SatisfiesAll, InputsMatch, StandsFor, Separates, Same, Settled, Assigned,
        CountAll, SweptTo, Upto, Recorded, Schedule, Due, Answers, AllRecorded, Complete, FirstOfKind;
    var representatives := Unassigned(classes);
    var open := seq(|classes|, c requires 0 <= c < |classes| => Indices(|classes[c]|));
    refutations, log := [], [];
    Begins(rows, classes, representatives, open);
    var pairCount, round := 0, 0;
    var done := false;
    while round < maxRepresentatives && !done
      invariant round <= maxRepresentatives
      invariant AllSettled(rows, classes, representatives, open) && AllSwept(rows, classes, open, round, 0)
      invariant Upto(rows, classes, log, Mark(round, 0, 0)) && AllRecorded(rows, classes, representatives, log)
      invariant pairCount <= maxPairs && CountAll(representatives) + |refutations| == pairCount == |log|
      invariant Answers(rows, classes, refutations, log)
      invariant done ==> forall c :: 0 <= c < |classes| ==> |open[c]| < 2
      decreases maxRepresentatives - round
    {
      var status, advanced, reps, left, count, found;
      ghost var added;
      status, advanced, reps, left, count, found, added :=
        SweepRound(miter, solver, rows, classes, atoms, representatives, open, round, pairCount, maxPairs, log);
      AnswersJoin(rows, classes, refutations, log, found, added);
      refutations, log := refutations + found, log + added;
      MoreRounds(rows, classes, round + 1, maxRepresentatives, log);
      if status.Broken? { return Error(SolverFailure), refutations, log; }
      if status.Exhausted? { return Success(reps), refutations, log; }
      representatives, open, pairCount, round, done := reps, left, count, round + 1, !advanced;
    }
    SettledIsAssigned(rows, classes, representatives, open);
    if done { EndsRun(rows, classes, representatives, open, round, maxRepresentatives, log); }
    UptoSchedules(rows, classes, log, Mark(maxRepresentatives, 0, 0), maxRepresentatives);
    result := Success(representatives);
  }

  lemma Begins(rows: seq<Row>, classes: seq<seq<Lit>>, representatives: seq<seq<Option<nat>>>, open: seq<seq<nat>>)
    requires representatives == Unassigned(classes)
    requires |open| == |classes| && forall c :: 0 <= c < |classes| ==> open[c] == Indices(|classes[c]|)
    ensures AllSettled(rows, classes, representatives, open) && AllSwept(rows, classes, open, 0, 0)
    ensures CountAll(representatives) == 0 && Upto(rows, classes, [], Mark(0, 0, 0))
    ensures AllRecorded(rows, classes, representatives, []) && Answers(rows, classes, [], [])
  {
    hide Settled, AllSwept, Due;
    forall c | 0 <= c < |classes| ensures Settled(rows, classes[c], representatives[c], open[c]) {
      StartsSettled(rows, classes[c]);
    }
    AllSweptStart(rows, classes, open);
    CountUnassigned(classes);
    StartsUpto(rows, classes);
  }

  /** Proves which members of each class are equivalent, within the budgets. The pairs tried
      are the first `maxPairs` of those that the classes call for. */
  method ProvePartitions(solver: Solver, rows: seq<Row>, classes: seq<seq<Lit>>,
                         maxRepresentatives: nat, maxPairs: nat, maxEncodedNodes: nat, earlier: seq<Refutation>)
    returns (result: Result<Option<seq<seq<Option<nat>>>>>, refutations: seq<Refutation>, ghost log: seq<Try>)
    requires Correct(solver) && WellFormed(rows) && Levelled(rows)
    ensures result == Error(Invalid) <==>
              !Trivial(classes, maxRepresentatives, maxPairs) && !AllInside(rows, Flatten(classes))
    ensures result.Error? ==> result.error.Invalid? || result.error.SolverFailure?
    ensures result == Error(SolverFailure) ==> !NeverFails(solver)
    ensures result == Success(None) <==>
              && !Trivial(classes, maxRepresentatives, maxPairs) && AllInside(rows, Flatten(classes))
              && |Cone(rows, Flatten(classes))| > maxEncodedNodes
    ensures |log| <= maxPairs && Schedule(rows, classes, maxRepresentatives, log)
    ensures earlier <= refutations && Answers(rows, classes, refutations[|earlier|..], log)
    ensures forall r :: |earlier| <= r < |refutations| ==> AnyRefuted(refutations[r], rows, classes)
    ensures result.Success? && result.value.Some? ==>
              var representatives := result.value.value;
              && AllAssigned(rows, classes, representatives) && AllRecorded(rows, classes, representatives, log)
              && CountAll(representatives) + |refutations| - |earlier| == |log|
              && Run(rows, classes, maxRepresentatives, maxPairs, log)
              && (|log| < maxPairs ==> Partitioned(rows, classes, representatives, maxRepresentatives))
  {
    hide VarValue, Value, Formula, Defining, SatisfiesAll, InputsMatch, StandsFor, Separates, Same, Assigned, Cone,
        WellFormed, Levelled, CountAll, AnyRefuted, Recorded, Schedule, Due, Answers, AllRecorded, Complete,
        Partitioned;
    refutations, log := earlier, [];
    assert refutations[|earlier|..] == [];
    NoTries(rows, classes, maxRepresentatives);
    var outputs := Flatten(classes);
    if outputs == [] || maxRepresentatives == 0 || maxPairs == 0 {
      var representatives := Unassigned(classes);
      NoneTried(rows, classes, maxRepresentatives);
      if maxPairs > 0 { RunPartitions(rows, classes, representatives, maxRepresentatives, log); }
      return Success(Some(representatives)), refutations, log;
    }
    var miter := new Miter();
    var encoded := miter.EncodeNetwork(rows, outputs);
    if encoded.Error? { return Error(Invalid), refutations, log; }
    if miter.encodedNodes > maxEncodedNodes { return Success(None), refutations, log; }
    var swept, found;
    swept, found, log := SweepRounds(miter, solver, rows, classes, encoded.value, maxRepresentatives, maxPairs);
    refutations := earlier + found;
    assert refutations[|earlier|..] == found;
    AnswersRefute(rows, classes, found, log);
    if swept.Error? { return Error(SolverFailure), refutations, log; }
    if |log| < maxPairs { RunPartitions(rows, classes, swept.value, maxRepresentatives, log); }
    result := Success(Some(swept.value));
  }

  /** Each class is split by what its members mean: completely, if it is small enough. */
  ghost predicate Partitioned(rows: seq<Row>, classes: seq<seq<Lit>>, representatives: seq<seq<Option<nat>>>,
                              maxRepresentatives: nat)
  {
    && |representatives| == |classes|
    && forall c :: 0 <= c < |classes| ==>
         && Determined(rows, classes[c], representatives[c], maxRepresentatives)
         && (|classes[c]| <= maxRepresentatives + 1 ==> Split(rows, classes[c], representatives[c]))
  }

  lemma RunPartitions(rows: seq<Row>, classes: seq<seq<Lit>>, representatives: seq<seq<Option<nat>>>,
                      maxRepresentatives: nat, log: seq<Try>)
    requires AllAssigned(rows, classes, representatives) && AllRecorded(rows, classes, representatives, log)
    requires Schedule(rows, classes, maxRepresentatives, log) && Complete(rows, classes, maxRepresentatives, log)
    ensures Partitioned(rows, classes, representatives, maxRepresentatives)
  {
    hide Determined, Assigned, Recorded, Schedule, Complete, Split;
    forall c | 0 <= c < |classes|
      ensures Determined(rows, classes[c], representatives[c], maxRepresentatives)
      ensures |classes[c]| <= maxRepresentatives + 1 ==> Split(rows, classes[c], representatives[c])
    {
      CompleteDetermines(rows, classes, representatives, maxRepresentatives, log, c);
      if |classes[c]| <= maxRepresentatives + 1 {
        SplitCompletely(rows, classes[c], representatives[c], maxRepresentatives);
      }
    }
  }

  /** Before anything is tried nothing is assigned; without members or rounds that is all. */
  lemma NoneTried(rows: seq<Row>, classes: seq<seq<Lit>>, maxRepresentatives: nat)
    ensures AllAssigned(rows, classes, Unassigned(classes)) && AllRecorded(rows, classes, Unassigned(classes), [])
    ensures CountAll(Unassigned(classes)) == 0
    ensures Flatten(classes) == [] || maxRepresentatives == 0 ==> Complete(rows, classes, maxRepresentatives, [])
  {
    hide Same, FirstOfKind, Kinds;
    CountUnassigned(classes);
    if Flatten(classes) == [] {
      forall t ensures !Due(rows, classes, t) {
        if Due(rows, classes, t) { FlattenSlice(classes, t.group); }
      }
    }
  }

  lemma ClassAtoms(defs: seq<Def>, atoms: seq<Atom>, rows: seq<Row>, classes: seq<seq<Lit>>, c: nat)
    requires c < |classes| && AllStandFor(defs, atoms, rows, Flatten(classes))
    ensures var base := Offset(classes, c);
            base + |classes[c]| <= |atoms| && AllStandFor(defs, atoms[base..base + |classes[c]|], rows, classes[c])
  {
    hide StandsFor;
    FlattenSlice(classes, c);
    var base := Offset(classes, c);
    var slice := atoms[base..base + |classes[c]|];
    forall i | 0 <= i < |classes[c]| ensures StandsFor(defs, slice[i], rows, classes[c][i]) {
      assert Flatten(classes)[base..base + |classes[c]|][i] == Flatten(classes)[base + i];
      assert slice[i] == atoms[base + i];
    }
  }
}
