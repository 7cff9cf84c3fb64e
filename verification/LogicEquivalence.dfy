/** The equivalence miter: two networks agree on corresponding outputs exactly
    when their encoded difference has no satisfying assignment. */
module LogicEquivalence {
  import opened LogicNetwork
  import opened LogicCone
  import opened Cnf
  import opened LogicMiter

  // ----- assignments and boundaries -----

  /** Every model of a definitional formula evaluates the network on its own boundary. */
  lemma AssignmentMeaning(defs: seq<Def>, env: Boundary, a: Assignment, atom: Atom)
    requires Defining(defs) && SatisfiesAll(a, Formula(defs)) && atom.v < |defs|
    requires forall v :: 0 <= v < |defs| && defs[v].InputDef? ==> a(v) == env(defs[v].origin)
    ensures Holds(a, atom) == AtomValue(defs, env, atom)
  {
    hide VarValue, SatisfiesAll, Formula;
    FormulaMeaning(defs, env, a);
  }

  function AssignmentOf(defs: seq<Def>, env: Boundary): Assignment {
    (v: nat) => VarValue(defs, env, v)
  }

  /** Every boundary extends to a model that gives each atom its evaluated value. */
  lemma BoundaryMeaning(defs: seq<Def>, env: Boundary)
    requires Defining(defs)
    ensures SatisfiesAll(AssignmentOf(defs, env), Formula(defs))
    ensures forall atom: Atom :: Holds(AssignmentOf(defs, env), atom) == AtomValue(defs, env, atom)
  {
    FormulaMeaning(defs, env, AssignmentOf(defs, env));
  }

  /** The formula with one more clause is satisfiable exactly when some boundary
      makes one of the clause's atoms true. */
  lemma ClauseMeaning(defs: seq<Def>, inputs: map<nat, Atom>, clause: Clause)
    requires Defining(defs) && InputsMatch(inputs, defs)
    requires forall i :: 0 <= i < |clause| ==> clause[i].v < |defs|
    ensures Satisfiable(Formula(defs) + [clause])
       <==> (exists env: Boundary, i :: 0 <= i < |clause| && AtomValue(defs, env, clause[i]))
  {
    hide VarValue, SatisfiesAll, Formula;
    if a: Assignment :| SatisfiesAll(a, Formula(defs) + [clause]) {
      SatisfiesSplit(a, Formula(defs), [clause]);
      OneClause(a, clause);
      var i :| 0 <= i < |clause| && Holds(a, clause[i]);
      var env := BoundaryOf(inputs, a);
      AssignmentMeaning(defs, env, a, clause[i]);
      assert AtomValue(defs, env, clause[i]);
    }
    if env: Boundary, i :| 0 <= i < |clause| && AtomValue(defs, env, clause[i]) {
      var a := AssignmentOf(defs, env);
      BoundaryMeaning(defs, env);
      assert Holds(a, clause[i]);
      OneClause(a, clause);
      SatisfiesSplit(a, Formula(defs), [clause]);
    }
  }

  lemma OneClause(a: Assignment, clause: Clause)
    ensures SatisfiesAll(a, [clause]) <==> Satisfies(a, clause)
  {
    assert SatisfiesAll(a, [clause]) ==> Satisfies(a, [clause][0]);
  }

  // ----- the miter -----

  datatype Outcome = Proved(encodedValues: nat, clauses: nat) | Disproved

  /** Corresponding outputs agree on every boundary. */
  ghost predicate Agree(left: seq<Row>, leftOutputs: seq<Lit>, right: seq<Row>, rightOutputs: seq<Lit>)
    requires |leftOutputs| == |rightOutputs|
  {
    forall env: Boundary, i :: 0 <= i < |leftOutputs| ==>
      LitValue(left, env, leftOutputs[i]) == LitValue(right, env, rightOutputs[i])
  }

  predicate AllInside(rows: seq<Row>, outputs: seq<Lit>) {
    forall i :: 0 <= i < |outputs| ==> outputs[i].node < |rows|
  }

  ghost predicate NeverFails(solver: Solver) {
    forall n, clauses, assumptions :: !solver(n, clauses, assumptions).Failed?
  }

  /** `atom` is true exactly where the two literals differ. */
  ghost predicate Differs(defs: seq<Def>, atom: Atom, left: seq<Row>, l: Lit, right: seq<Row>, r: Lit) {
    atom.v < |defs| && forall env: Boundary ::
        AtomValue(defs, env, atom) == (LitValue(left, env, l) != LitValue(right, env, r))
  }

  lemma XorDiffers(defs: seq<Def>, a: Atom, b: Atom, left: seq<Row>, l: Lit, right: seq<Row>, r: Lit)
    requires StandsFor(defs, a, left, l) && StandsFor(defs, b, right, r)
    ensures Differs(defs + [XorDef(a, b)], Atom(|defs|, false), left, l, right, r)
  {
    var defs' := defs + [XorDef(a, b)];
    forall env: Boundary
      ensures AtomValue(defs', env, Atom(|defs|, false)) == (LitValue(left, env, l) != LitValue(right, env, r))
    {
      VarValuePrefix(defs, defs', env, a.v);
      VarValuePrefix(defs, defs', env, b.v);
      assert AtomValue(defs, env, a) == LitValue(left, env, l);
      assert AtomValue(defs, env, b) == LitValue(right, env, r);
    }
  }

  lemma DiffersKept(defs: seq<Def>, defs': seq<Def>, atom: Atom, left: seq<Row>, l: Lit, right: seq<Row>, r: Lit)
    requires defs <= defs' && Differs(defs, atom, left, l, right, r)
    ensures Differs(defs', atom, left, l, right, r)
  {
    forall env: Boundary
      ensures AtomValue(defs', env, atom) == (LitValue(left, env, l) != LitValue(right, env, r))
    {
      VarValuePrefix(defs, defs', env, atom.v);
      assert AtomValue(defs, env, atom) == (LitValue(left, env, l) != LitValue(right, env, r));
    }
  }

  lemma MiterMeaning(defs: seq<Def>, inputs: map<nat, Atom>, differences: Clause,
                     left: seq<Row>, leftOutputs: seq<Lit>, right: seq<Row>, rightOutputs: seq<Lit>)
    requires Defining(defs) && InputsMatch(inputs, defs)
    requires |differences| == |leftOutputs| == |rightOutputs|
    requires forall i :: 0 <= i < |differences| ==>
        Differs(defs, differences[i], left, leftOutputs[i], right, rightOutputs[i])
    ensures Satisfiable(Formula(defs) + [differences])
       <==> !Agree(left, leftOutputs, right, rightOutputs)
  {
    hide VarValue, Value, SatisfiesAll, Formula, Defining, InputsMatch;
    ClauseMeaning(defs, inputs, differences);
    if env: Boundary, i :| 0 <= i < |differences| && AtomValue(defs, env, differences[i]) {
      assert LitValue(left, env, leftOutputs[i]) != LitValue(right, env, rightOutputs[i]);
    }
    if !Agree(left, leftOutputs, right, rightOutputs) {
      var env: Boundary, i :| 0 <= i < |leftOutputs| &&
        LitValue(left, env, leftOutputs[i]) != LitValue(right, env, rightOutputs[i]);
      assert AtomValue(defs, env, differences[i]);
    }
  }

  /** Proved exactly when every pair of corresponding outputs agrees on every boundary. */
  method ProveEquivalence(solver: Solver, reference: seq<Row>, referenceOutputs: seq<Lit>,
                          implementation: seq<Row>, implementationOutputs: seq<Lit>) returns (result: Result<Outcome>)
    requires Correct(solver)
    requires WellFormed(reference) && Levelled(reference) && WellFormed(implementation) && Levelled(implementation)
    ensures result == Error(Invalid) <==>
              !(|referenceOutputs| == |implementationOutputs| > 0
                && AllInside(reference, referenceOutputs) && AllInside(implementation, implementationOutputs))
    ensures result.Error? ==> result.error.Invalid? || result.error.SolverFailure?
    ensures result == Error(SolverFailure) ==> !NeverFails(solver)
    ensures result.Success? ==>
              (result.value.Proved? <==> Agree(reference, referenceOutputs, implementation, implementationOutputs))
    ensures result.Success? && result.value.Proved? ==>
              result.value.clauses == 2 + 4 * |referenceOutputs|
                + ConeClauses(reference, Cone(reference, referenceOutputs), |reference|)
                + ConeClauses(implementation, Cone(implementation, implementationOutputs), |implementation|)
    ensures result.Success? && result.value.Proved? ==>
              result.value.encodedValues == |Cone(reference, referenceOutputs)| + |Cone(implementation,
                  implementationOutputs)|
  {
    hide Value, VarValue, SatisfiesAll, Formula, Defining, InputsMatch, WellFormed, Levelled, StandsFor, Differs, Agree,
        Cone, ConeClauses;
    if |referenceOutputs| != |implementationOutputs| || referenceOutputs == [] { return Error(Invalid); }
    var miter := new Miter();
    var left := miter.EncodeNetwork(reference, referenceOutputs);
    if left.Error? { return Error(Invalid); }
    ghost var before := miter.defs;
    var right := miter.EncodeNetwork(implementation, implementationOutputs);
    if right.Error? { return Error(Invalid); }
    AllStandForKept(before, miter.defs, left.value, reference, referenceOutputs);
    var differences: Clause := [];
    for i := 0 to |referenceOutputs|
      invariant miter.Valid() && fresh(miter)
      invariant miter.encodedNodes == |Cone(reference, referenceOutputs)| + |Cone(implementation,
          implementationOutputs)|
      invariant AllStandFor(miter.defs, left.value, reference, referenceOutputs)
      invariant AllStandFor(miter.defs, right.value, implementation, implementationOutputs)
      invariant |differences| == i
      invariant miter.clauseCount == 1 + 4 * i
        + ConeClauses(reference, Cone(reference, referenceOutputs), |reference|)
        + ConeClauses(implementation, Cone(implementation, implementationOutputs), |implementation|)
      invariant forall j :: 0 <= j < i ==>
        Differs(miter.defs, differences[j], reference, referenceOutputs[j], implementation, implementationOutputs[j])
    {
      ghost var defs := miter.defs;
      StandsBelow(defs, left.value[i], reference, referenceOutputs[i]);
      StandsBelow(defs, right.value[i], implementation, implementationOutputs[i]);
      var difference := miter.Xor(left.value[i], right.value[i]);
      XorDiffers(defs, left.value[i], right.value[i], reference, referenceOutputs[i], implementation,
          implementationOutputs[i]);
      AllStandForKept(defs, miter.defs, left.value, reference, referenceOutputs);
      AllStandForKept(defs, miter.defs, right.value, implementation, implementationOutputs);
      forall j | 0 <= j < i
        ensures Differs(miter.defs, differences[j], reference, referenceOutputs[j], implementation,
            implementationOutputs[j])
      {
        DiffersKept(defs, miter.defs, differences[j], reference, referenceOutputs[j], implementation,
            implementationOutputs[j]);
      }
      differences := differences + [difference];
    }
    MiterMeaning(miter.defs, miter.inputs, differences, reference, referenceOutputs, implementation,
        implementationOutputs);
    miter.AddClause(differences);
    assert miter.clauses == Formula(miter.defs) + [differences];
    var verdict := miter.Solve(solver, []);
    VerdictMeaning(solver, miter.queries - 1, miter.clauses);
    assert verdict.Sat? ==> !Agree(reference, referenceOutputs, implementation, implementationOutputs);
    assert verdict.Unsat? ==> Agree(reference, referenceOutputs, implementation, implementationOutputs);
    match verdict
    case Failed => result := Error(SolverFailure);
    case Sat(_) => result := Success(Disproved);
    case Unsat => result := Success(Proved(miter.encodedNodes, miter.clauseCount));
  }

  lemma StandsBelow(defs: seq<Def>, atom: Atom, rows: seq<Row>, l: Lit)
    requires StandsFor(defs, atom, rows, l)
    ensures atom.v < |defs|
  {
  }

  lemma VerdictMeaning(solver: Solver, n: nat, clauses: seq<Clause>)
    requires Correct(solver)
    ensures match solver(n, clauses, [])
            case Sat(_) => Satisfiable(clauses)
            case Unsat => !Satisfiable(clauses)
            case Failed => !NeverFails(solver)
  {
    match solver(n, clauses, [])
    case Sat(model) =>
      var a: Assignment := v => v in model && model[v];
      ModelSatisfies(a, model, clauses, []);
    case Unsat =>
      forall a: Assignment ensures !SatisfiesAll(a, clauses) {
        assert HoldsAll(a, []);
      }
    case Failed =>
  }
}
