/** The finite transition relation of a register: one solver query per pair of
    states finds exactly the steps that some environment allows. */
module FsmTransitions {
  import opened Lists
  import opened Cnf
  import opened LogicMiter
  import opened LogicEquivalence
  import opened WordEncoder
  import opened FsmPartition
  import opened FsmProof

  /** Some behaviour of the other signals takes the register from `source` to `target`. */
  ghost predicate Step(values: Values, register: Register, signal: seq<nat>, source: ConstBits, target: ConstBits)
    requires |source| == |signal| && GoodRegister(values, register, |signal|)
  {
    exists env: Boundary :: Successor(values, register, signal, source, env) == BitsOf(target)
  }

  // ----- environments that agree everywhere -----

  lemma {:induction false} EvalSame(e: Expr, env: Boundary, env': Boundary)
    requires forall id :: env(id) == env'(id)
    ensures Eval(e, env) == Eval(e, env')
  {
    match e
    case ConstE(_) =>
    case BitE(_) =>
    case NotE(a) => EvalSame(a, env, env');
    case AndE(l, r) => EvalSame(l, env, env'); EvalSame(r, env, env');
    case OrE(l, r) => EvalSame(l, env, env'); EvalSame(r, env, env');
    case XorE(l, r) => EvalSame(l, env, env'); EvalSame(r, env, env');
    case IteE(c, t, f) => EvalSame(c, env, env'); EvalSame(t, env, env'); EvalSame(f, env, env');
  }

  lemma EvalBitsSame(es: seq<Expr>, env: Boundary, env': Boundary)
    requires forall id :: env(id) == env'(id)
    ensures EvalBits(es, env) == EvalBits(es, env')
  {
    forall i | 0 <= i < |es| ensures Eval(es[i], env) == Eval(es[i], env') { EvalSame(es[i], env, env'); }
  }

  // ----- one query -----

  /** The literals that say that `atoms` spell `bits`. */
  function Pinned(atoms: seq<Atom>, bits: seq<bool>): (pins: seq<Atom>)
    requires |atoms| == |bits|
    ensures |pins| == |atoms|
    ensures forall i :: 0 <= i < |pins| ==> pins[i] == if bits[i] then atoms[i] else atoms[i].Not()
  {
    seq(|atoms|, i requires 0 <= i < |atoms| => if bits[i] then atoms[i] else atoms[i].Not())
  }

  ghost predicate AllTrue(defs: seq<Def>, env: Boundary, atoms: seq<Atom>) {
    forall i :: 0 <= i < |atoms| ==> AtomValue(defs, env, atoms[i])
  }

  /** Assumptions can be met together with the formula exactly when some boundary makes them all true. */
  lemma AssumptionMeaning(defs: seq<Def>, inputs: map<nat, Atom>, assumptions: seq<Atom>)
    requires Defining(defs) && InputsMatch(inputs, defs)
    requires forall i :: 0 <= i < |assumptions| ==> assumptions[i].v < |defs|
    ensures (exists a: Assignment :: SatisfiesAll(a, Formula(defs)) && HoldsAll(a, assumptions))
       <==> (exists env: Boundary :: AllTrue(defs, env, assumptions))
  {
    hide VarValue, SatisfiesAll, Formula;
    if a: Assignment :| SatisfiesAll(a, Formula(defs)) && HoldsAll(a, assumptions) {
      var env := BoundaryOf(inputs, a);
      forall i | 0 <= i < |assumptions| ensures AtomValue(defs, env, assumptions[i]) {
        AssignmentMeaning(defs, env, a, assumptions[i]);
      }
      assert AllTrue(defs, env, assumptions);
    }
    if env: Boundary :| AllTrue(defs, env, assumptions) {
      var a := AssignmentOf(defs, env);
      BoundaryMeaning(defs, env);
      forall i | 0 <= i < |assumptions| ensures Holds(a, assumptions[i]) {
        assert AtomValue(defs, env, assumptions[i]);
      }
      assert SatisfiesAll(a, Formula(defs)) && HoldsAll(a, assumptions);
    }
  }

  /** Atoms of freely encoded words are pinned exactly where the words have those values. */
  lemma PinnedMeaning(defs: seq<Def>, atoms: seq<Atom>, es: seq<Expr>, bits: seq<bool>, env: Boundary)
    requires AllDenote(defs, atoms, es, [], []) && |bits| == |es|
    ensures |atoms| == |bits| && (AllTrue(defs, env, Pinned(atoms, bits)) <==> EvalBits(es, env) == bits)
    ensures forall i :: 0 <= i < |atoms| ==> atoms[i].v < |defs|
  {
    hide VarValue;
    var pins, word, free := Pinned(atoms, bits), EvalBits(es, env), Bound(env, [], []);
    forall i | 0 <= i < |bits|
      ensures AtomValue(defs, env, pins[i]) <==> word[i] == bits[i]
      ensures atoms[i].v < |defs|
    {
      assert Denotes(defs, atoms[i], es[i], [], []);
      assert AtomValue(defs, env, atoms[i]) == Eval(es[i], free);
      EvalSame(es[i], free, env);
    }
    if AllTrue(defs, env, pins) { assert word == bits; }
  }

  lemma AllTrueSplit(defs: seq<Def>, env: Boundary, left: seq<Atom>, right: seq<Atom>)
    ensures AllTrue(defs, env, left + right) <==> AllTrue(defs, env, left) && AllTrue(defs, env, right)
  {
    var all := left + right;
    if AllTrue(defs, env, all) {
      forall i | 0 <= i < |left| ensures AtomValue(defs, env, left[i]) { assert AtomValue(defs, env, all[i]); }
      forall i | 0 <= i < |right| ensures AtomValue(defs, env, right[i]) {
        assert AtomValue(defs, env, all[|left| + i]);
      }
    }
  }

  /** A register that holds `source` steps as the free encoding says. */
  lemma FreeStep(values: Values, register: Register, signal: seq<nat>, source: seq<bool>, env: Boundary)
    requires Distinct(signal) && GoodRegister(values, register, |signal|) && |source| == |signal|
    requires EvalBits(HeldE(signal), env) == source
    ensures EvalBits(NextE(values, register, register.resets, signal), env)
         == NextState(values, register, register.resets, source, Bound(env, signal, source))
  {
    hide NextE, NextState, Eval;
    var bound := Bound(env, signal, source);
    forall id ensures env(id) == bound(id) {
      if id in signal {
        var i := IndexOf(signal, id);
        assert EvalBits(HeldE(signal), env)[i] == Eval(BitE(signal[i]), env);
        BitValue(signal[i], env);
      }
    }
    EvalBitsSame(NextE(values, register, register.resets, signal), env, bound);
    NextMeaning(values, register, register.resets, signal, source, env);
  }

  lemma BitValue(id: nat, env: Boundary)
    ensures Eval(BitE(id), env) == env(id)
  {
  }

  lemma StepMeaning(values: Values, register: Register, signal: seq<nat>, source: ConstBits, target: ConstBits)
    requires Distinct(signal) && GoodRegister(values, register, |signal|) && |source| == |signal| == |target|
    ensures Step(values, register, signal, source, target) <==>
            exists env: Boundary ::
              EvalBits(HeldE(signal), env) == BitsOf(source)
              && EvalBits(NextE(values, register, register.resets, signal), env) == BitsOf(target)
  {
    hide NextE, NextState, Eval, BitsOf;
    if env: Boundary :| Successor(values, register, signal, source, env) == BitsOf(target) {
      var bound := Bound(env, signal, BitsOf(source));
      HeldMeaning(signal, BitsOf(source), env);
      NextMeaning(values, register, register.resets, signal, BitsOf(source), env);
      assert EvalBits(HeldE(signal), bound) == BitsOf(source);
    }
    if env: Boundary :| EvalBits(HeldE(signal), env) == BitsOf(source)
                        && EvalBits(NextE(values, register, register.resets, signal), env) == BitsOf(target) {
      FreeStep(values, register, signal, BitsOf(source), env);
      assert Successor(values, register, signal, source, env) == BitsOf(target);
    }
  }

  /** The query for a pair of states is satisfiable exactly when the step exists. */
  lemma QueryMeaning(defs: seq<Def>, inputs: map<nat, Atom>, held: seq<Atom>, next: seq<Atom>,
                     values: Values, register: Register, signal: seq<nat>, source: ConstBits, target: ConstBits)
    requires Defining(defs) && InputsMatch(inputs, defs) && Distinct(signal)
    requires GoodRegister(values, register, |signal|) && |source| == |signal| == |target|
    requires AllDenote(defs, held, HeldE(signal), [], [])
    requires AllDenote(defs, next, NextE(values, register, register.resets, signal), [], [])
    ensures |held| == |next| == |signal|
    ensures (exists a: Assignment :: SatisfiesAll(a, Formula(defs))
                                     && HoldsAll(a, Pinned(held, BitsOf(source)) + Pinned(next, BitsOf(target))))
       <==> Step(values, register, signal, source, target)
  {
    hide VarValue, SatisfiesAll, Formula, Defining, InputsMatch, NextE, NextState, Eval, BitsOf, Denotes, Step, AllTrue,
        EvalBits;
    var nextE := NextE(values, register, register.resets, signal);
    var assumptions := Pinned(held, BitsOf(source)) + Pinned(next, BitsOf(target));
    forall env: Boundary
      ensures AllTrue(defs, env, assumptions) <==>
          EvalBits(HeldE(signal), env) == BitsOf(source) && EvalBits(nextE, env) == BitsOf(target)
    {
      PinnedMeaning(defs, held, HeldE(signal), BitsOf(source), env);
      PinnedMeaning(defs, next, nextE, BitsOf(target), env);
      AllTrueSplit(defs, env, Pinned(held, BitsOf(source)), Pinned(next, BitsOf(target)));
    }
    PinnedMeaning(defs, held, HeldE(signal), BitsOf(source), _ => false);
    PinnedMeaning(defs, next, nextE, BitsOf(target), _ => false);
    AssumptionMeaning(defs, inputs, assumptions);
    StepMeaning(values, register, signal, source, target);
    if env: Boundary :| AllTrue(defs, env, assumptions) {
      assert EvalBits(HeldE(signal), env) == BitsOf(source) && EvalBits(nextE, env) == BitsOf(target);
    }
    if env: Boundary :| EvalBits(HeldE(signal), env) == BitsOf(source) && EvalBits(nextE, env) == BitsOf(target) {
      assert AllTrue(defs, env, assumptions);
    }
  }

  // ----- the relation -----

  predicate GoodStateSet(states: seq<ConstBits>, width: nat) {
    states != [] && forall i :: 0 <= i < |states| ==> |states[i]| == width && Resolved(states[i])
  }

  /** `targets` lists, in ascending order, exactly the first `n` states that `source` can step to. */
  ghost predicate StepsTo(values: Values, register: Register, signal: seq<nat>, states: seq<ConstBits>,
                          source: ConstBits, targets: seq<nat>, n: nat)
    requires |source| == |signal| && GoodRegister(values, register, |signal|) && n <= |states|
  {
    && (forall i, j :: 0 <= i < j < |targets| ==> targets[i] < targets[j])
    && (forall t :: t in targets <==> 0 <= t < n && Step(values, register, signal, source, states[t]))
  }

  lemma OneMoreTarget(values: Values, register: Register, signal: seq<nat>, states: seq<ConstBits>,
                      source: ConstBits, targets: seq<nat>, n: nat, found: bool)
    requires |source| == |signal| && GoodRegister(values, register, |signal|) && n < |states|
    requires StepsTo(values, register, signal, states, source, targets, n)
    requires found <==> Step(values, register, signal, source, states[n])
    ensures StepsTo(values, register, signal, states, source, if found then targets + [n] else targets, n + 1)
  {
    hide Step, GoodRegister;
    var more := targets + [n];
    assert forall i :: 0 <= i < |targets| ==> more[i] in targets;
  }

  /** Reads all states, or reports the first that is malformed. */
  method StateAssignments(states: seq<ConstBits>, width: nat) returns (result: Result<seq<seq<bool>>>)
    requires states != []
    ensures result.Success? <==> GoodStateSet(states, width)
    ensures result.Success? ==> result.value == StateBits(states)
    ensures result != Error(SolverFailure)
  {
    var assignments: seq<seq<bool>> := [];
    for i := 0 to |states|
      invariant assignments == StateBits(states[..i])
      invariant forall j :: 0 <= j < i ==> |states[j]| == width && Resolved(states[j])
    {
      var bits := ConstantAssignment(states[i], width);
      if bits.Error? { return Error(bits.error); }
      assert states[..i + 1] == states[..i] + [states[i]];
      assignments := assignments + [bits.value];
    }
    assert states[..|states|] == states;
    result := Success(assignments);
  }

  /** An edge is listed exactly when some behaviour of the other signals takes it. */
  method EnumerateTransitions(solver: Solver, values: Values, register: Register, signal: seq<nat>,
                              states: seq<ConstBits>)
    returns (result: Result<seq<seq<nat>>>)
    requires Correct(solver) && Distinct(signal)
    ensures result.Error? && result.error != SolverFailure <==>
              !(GoodRegister(values, register, |signal|) && GoodStateSet(states, |signal|))
    ensures result == Error(SolverFailure) ==> !NeverFails(solver)
    ensures result.Success? ==>
              && |result.value| == |states|
              && forall s :: 0 <= s < |states| ==>
                   StepsTo(values, register, signal, states, states[s], result.value[s], |states|)
  {
    hide Denotes, AllDenote, SignalsMatch, Formula, Defining, InputsMatch, VarValue, SatisfiesAll, Eval, NextE, StepsTo;
    var enc := new Encoder(values);
    var held := EncodeHeld(enc, signal);
    ghost var d0 := enc.miter.defs;
    var next := RegisterNext(enc, register, signal);
    if next.Error? { return Error(Invalid); }
    AllDenoteKept(d0, enc.miter.defs, held, HeldE(signal), [], []);
    if states == [] { return Error(Invalid); }
    DenoteLength(enc.miter.defs, held, HeldE(signal), [], []);
    DenoteLength(enc.miter.defs, next.value, NextE(values, register, register.resets, signal), [], []);
    var assignments := StateAssignments(states, |held|);
    if assignments.Error? { return Error(assignments.error); }
    var miter := enc.miter;
    ghost var defs := miter.defs;
    var successors: seq<seq<nat>> := [];
    for s := 0 to |states|
      invariant fresh(miter) && miter.Valid() && miter.defs == defs && |successors| == s
      invariant forall i :: 0 <= i < s ==> StepsTo(values, register, signal, states, states[i], successors[i], |states|)
    {
      var targets := Targets(solver, miter, values, register, signal, states, assignments.value, s, held, next.value);
      if targets.Error? { return Error(SolverFailure); }
      successors := successors + [targets.value];
    }
    result := Success(successors);
  }

  /** The row of one source state. */
  method Targets(solver: Solver, miter: Miter, ghost values: Values, ghost register: Register, ghost signal: seq<nat>,
                 ghost states: seq<ConstBits>, assignments: seq<seq<bool>>, s: nat, held: seq<Atom>, next: seq<Atom>)
    returns (result: Result<seq<nat>>)
    requires Correct(solver) && miter.Valid() && Distinct(signal)
    requires GoodRegister(values, register, |signal|) && GoodStateSet(states, |signal|) && s < |states|
    requires assignments == StateBits(states)
    requires AllDenote(miter.defs, held, HeldE(signal), [], []) && |held| == |signal|
    requires AllDenote(miter.defs, next, NextE(values, register, register.resets, signal), [], []) && |next| == |signal|
    modifies miter`queries
    ensures result.Success? || result == Error(SolverFailure)
    ensures result.Error? ==> !NeverFails(solver)
    ensures result.Success? ==> StepsTo(values, register, signal, states, states[s], result.value, |states|)
  {
    hide Denotes, AllDenote, Formula, Defining, InputsMatch, VarValue, SatisfiesAll, Eval, NextE, StepsTo, Step,
        GoodRegister;
    var targets: seq<nat> := [];
    NoTargets(values, register, signal, states, states[s]);
    for t := 0 to |assignments|
      invariant StepsTo(values, register, signal, states, states[s], targets, t)
    {
      var assumptions := Pinned(held, assignments[s]) + Pinned(next, assignments[t]);
      QueryMeaning(miter.defs, miter.inputs, held, next, values, register, signal, states[s], states[t]);
      ghost var n := miter.queries;
      var verdict := miter.Solve(solver, assumptions);
      AnswerMeaning(solver, n, miter.clauses, assumptions);
      if verdict.Failed? { return Error(SolverFailure); }
      OneMoreTarget(values, register, signal, states, states[s], targets, t, verdict.Sat?);
      if verdict.Sat? { targets := targets + [t]; }
    }
    result := Success(targets);
  }

  lemma NoTargets(values: Values, register: Register, signal: seq<nat>, states: seq<ConstBits>, source: ConstBits)
    requires |source| == |signal| && GoodRegister(values, register, |signal|)
    ensures StepsTo(values, register, signal, states, source, [], 0)
  {
  }

  /** Unless it fails, the solver says Sat exactly when clauses and assumptions can be met. */
  lemma AnswerMeaning(solver: Solver, n: nat, clauses: seq<Clause>, assumptions: seq<Atom>)
    requires Correct(solver)
    ensures var verdict := solver(n, clauses, assumptions);
            if verdict.Failed? then !NeverFails(solver)
            else verdict.Sat? <==> exists a: Assignment :: SatisfiesAll(a, clauses) && HoldsAll(a, assumptions)
  {
    var verdict := solver(n, clauses, assumptions);
    if verdict.Sat? {
      var a: Assignment := v => v in verdict.model && verdict.model[v];
      ModelSatisfies(a, verdict.model, clauses, assumptions);
    }
  }
}
