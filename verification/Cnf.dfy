/** Clauses, assignments, the solver's contract, and definitional formulas:
    clause sets in which every variable is an input or the output of a gate. */
module Cnf {

  datatype Atom = Atom(v: nat, negative: bool) {
    function Not(): Atom { Atom(v, !negative) }
  }

  type Clause = seq<Atom>
  type Assignment = nat -> bool

  predicate Holds(a: Assignment, atom: Atom) {
    a(atom.v) != atom.negative
  }

  predicate Satisfies(a: Assignment, clause: Clause) {
    exists i :: 0 <= i < |clause| && Holds(a, clause[i])
  }

  predicate SatisfiesAll(a: Assignment, clauses: seq<Clause>) {
    forall i :: 0 <= i < |clauses| ==> Satisfies(a, clauses[i])
  }

  ghost predicate Satisfiable(clauses: seq<Clause>) {
    exists a: Assignment :: SatisfiesAll(a, clauses)
  }

  predicate HoldsAll(a: Assignment, atoms: seq<Atom>) {
    forall i :: 0 <= i < |atoms| ==> Holds(a, atoms[i])
  }

  lemma SatisfiesSplit(a: Assignment, left: seq<Clause>, right: seq<Clause>)
    ensures SatisfiesAll(a, left + right) <==> SatisfiesAll(a, left) && SatisfiesAll(a, right)
  {
    forall i | 0 <= i < |left| ensures (left + right)[i] == left[i] {}
    forall i | 0 <= i < |right| ensures (left + right)[|left| + i] == right[i] {}
    if SatisfiesAll(a, left + right) {
      forall i | 0 <= i < |left| ensures Satisfies(a, left[i]) { assert Satisfies(a, (left + right)[i]); }
      forall i | 0 <= i < |right| ensures Satisfies(a, right[i]) { assert Satisfies(a, (left + right)[|left| + i]); }
    }
  }

  // ----- the solver -----

  /** A model may leave variables unassigned. */
  datatype Verdict = Sat(model: map<nat, bool>) | Unsat | Failed

  /** A solver answers the n-th query for clauses under assumptions. */
  type Solver = (nat, seq<Clause>, seq<Atom>) -> Verdict

  predicate TrueIn(model: map<nat, bool>, atom: Atom) {
    atom.v in model && model[atom.v] != atom.negative
  }

  predicate ModelOf(model: map<nat, bool>, clauses: seq<Clause>, assumptions: seq<Atom>) {
    && (forall i :: 0 <= i < |clauses| ==> exists j :: 0 <= j < |clauses[i]| && TrueIn(model, clauses[i][j]))
    && (forall i :: 0 <= i < |assumptions| ==> TrueIn(model, assumptions[i]))
  }

  /** Unless it fails, the answer is Sat, with a model, or Unsat, and then no
      total assignment satisfies the clauses and the assumptions. */
  ghost predicate Correct(solver: Solver) {
    forall n, clauses, assumptions ::
      match solver(n, clauses, assumptions)
      case Sat(model) => ModelOf(model, clauses, assumptions)
      case Unsat => forall a: Assignment :: !(SatisfiesAll(a, clauses) && HoldsAll(a, assumptions))
      case Failed => true
  }

  predicate Completes(a: Assignment, model: map<nat, bool>) {
    forall v :: v in model ==> a(v) == model[v]
  }

  lemma ModelSatisfies(a: Assignment, model: map<nat, bool>, clauses: seq<Clause>, assumptions: seq<Atom>)
    requires ModelOf(model, clauses, assumptions) && Completes(a, model)
    ensures SatisfiesAll(a, clauses) && HoldsAll(a, assumptions)
  {
    forall i | 0 <= i < |clauses|
      ensures Satisfies(a, clauses[i])
    {
      var j :| 0 <= j < |clauses[i]| && TrueIn(model, clauses[i][j]);
      assert Holds(a, clauses[i][j]);
    }
    forall i | 0 <= i < |assumptions|
      ensures Holds(a, assumptions[i])
    {
      assert TrueIn(model, assumptions[i]);
    }
  }

  // ----- definitional formulas -----

  datatype Def =
    | FalseDef
    | InputDef(origin: nat)
    | AndDef(left: Atom, right: Atom)
    | OrDef(left: Atom, right: Atom)
    | XorDef(left: Atom, right: Atom)
    | MuxDef(select: Atom, whenTrue: Atom, whenFalse: Atom)

  predicate DefBelow(def: Def, v: nat) {
    match def
    case FalseDef => true
    case InputDef(_) => true
    case AndDef(l, r) => l.v < v && r.v < v
    case OrDef(l, r) => l.v < v && r.v < v
    case XorDef(l, r) => l.v < v && r.v < v
    case MuxDef(s, t, e) => s.v < v && t.v < v && e.v < v
  }

  predicate Defining(defs: seq<Def>) {
    forall v :: 0 <= v < |defs| ==> DefBelow(defs[v], v)
  }

  /** The clauses that make variable `v` the output of its definition. */
  function DefClauses(def: Def, v: nat): seq<Clause> {
    var out := Atom(v, false);
    match def
    case FalseDef => [[out.Not()]]
    case InputDef(_) => []
    case AndDef(l, r) => [[l.Not(), r.Not(), out], [l, out.Not()], [r, out.Not()]]
    case OrDef(l, r) => [[l, r, out.Not()], [l.Not(), out], [r.Not(), out]]
    case XorDef(l, r) =>
      [[l.Not(), r.Not(), out.Not()], [l.Not(), r, out], [l, r.Not(), out], [l, r, out.Not()]]
    case MuxDef(s, t, e) =>
      [[s.Not(), t.Not(), out], [s.Not(), t, out.Not()], [s, e.Not(), out], [s, e, out.Not()]]
  }

  function Formula(defs: seq<Def>): seq<Clause> {
    if defs == [] then [] else Formula(defs[..|defs| - 1]) + DefClauses(defs[|defs| - 1], |defs| - 1)
  }

  /** Values of the boundary inputs, by origin. */
  type Boundary = nat -> bool

  /** What a definition computes from the values of its operands. */
  function DefValue(def: Def, env: Boundary, a: Assignment): bool {
    match def
    case FalseDef => false
    case InputDef(origin) => env(origin)
    case AndDef(l, r) => Holds(a, l) && Holds(a, r)
    case OrDef(l, r) => Holds(a, l) || Holds(a, r)
    case XorDef(l, r) => Holds(a, l) != Holds(a, r)
    case MuxDef(s, t, e) => if Holds(a, s) then Holds(a, t) else Holds(a, e)
  }

  /** The value of variable `v` when the inputs follow `env`. */
  function VarValue(defs: seq<Def>, env: Boundary, v: nat): bool
    decreases v
  {
    if v >= |defs| then false else
    var (x, y, z) := Operands(defs[v]);
    var a := (if x.v < v then VarValue(defs, env, x.v) else false) != x.negative;
    var b := (if y.v < v then VarValue(defs, env, y.v) else false) != y.negative;
    var c := (if z.v < v then VarValue(defs, env, z.v) else false) != z.negative;
    match defs[v]
    case FalseDef => false
    case InputDef(origin) => env(origin)
    case AndDef(_, _) => a && b
    case OrDef(_, _) => a || b
    case XorDef(_, _) => a != b
    case MuxDef(_, _, _) => if a then b else c
  }

  function Operands(def: Def): (Atom, Atom, Atom) {
    match def
    case AndDef(l, r) => (l, r, r)
    case OrDef(l, r) => (l, r, r)
    case XorDef(l, r) => (l, r, r)
    case MuxDef(s, t, e) => (s, t, e)
    case _ => (Atom(0, false), Atom(0, false), Atom(0, false))
  }

  function AtomValue(defs: seq<Def>, env: Boundary, atom: Atom): bool {
    VarValue(defs, env, atom.v) != atom.negative
  }

  lemma {:induction false} VarValuePrefix(defs: seq<Def>, defs': seq<Def>, env: Boundary, v: nat)
    requires defs <= defs' && v < |defs|
    ensures VarValue(defs', env, v) == VarValue(defs, env, v)
    decreases v
  {
    assert defs'[v] == defs[v];
    var (x, y, z) := Operands(defs[v]);
    if x.v < v { VarValuePrefix(defs, defs', env, x.v); }
    if y.v < v { VarValuePrefix(defs, defs', env, y.v); }
    if z.v < v { VarValuePrefix(defs, defs', env, z.v); }
  }

  /** A gate's clauses hold exactly when its variable has the defined value. */
  lemma GateClauses(def: Def, v: nat, env: Boundary, a: Assignment)
    requires !def.InputDef?
    ensures SatisfiesAll(a, DefClauses(def, v)) <==> a(v) == DefValue(def, env, a)
  {
    var out := Atom(v, false);
    var clauses := DefClauses(def, v);
    match def
    case FalseDef =>
      One(a, clauses[0], out.Not());
    case AndDef(l, r) =>
      Three(a, clauses[0], l.Not(), r.Not(), out);
      Two(a, clauses[1], l, out.Not());
      Two(a, clauses[2], r, out.Not());
    case OrDef(l, r) =>
      Three(a, clauses[0], l, r, out.Not());
      Two(a, clauses[1], l.Not(), out);
      Two(a, clauses[2], r.Not(), out);
    case XorDef(l, r) =>
      Three(a, clauses[0], l.Not(), r.Not(), out.Not());
      Three(a, clauses[1], l.Not(), r, out);
      Three(a, clauses[2], l, r.Not(), out);
      Three(a, clauses[3], l, r, out.Not());
    case MuxDef(s, t, e) =>
      Three(a, clauses[0], s.Not(), t.Not(), out);
      Three(a, clauses[1], s.Not(), t, out.Not());
      Three(a, clauses[2], s, e.Not(), out);
      Three(a, clauses[3], s, e, out.Not());
  }

  lemma One(a: Assignment, clause: Clause, x: Atom)
    requires clause == [x]
    ensures Satisfies(a, clause) <==> Holds(a, x)
  {
    if Holds(a, x) { assert Holds(a, clause[0]); }
  }

  lemma Two(a: Assignment, clause: Clause, x: Atom, y: Atom)
    requires clause == [x, y]
    ensures Satisfies(a, clause) <==> Holds(a, x) || Holds(a, y)
  {
    if Holds(a, x) { assert Holds(a, clause[0]); }
    if Holds(a, y) { assert Holds(a, clause[1]); }
  }

  lemma Three(a: Assignment, clause: Clause, x: Atom, y: Atom, z: Atom)
    requires clause == [x, y, z]
    ensures Satisfies(a, clause) <==> Holds(a, x) || Holds(a, y) || Holds(a, z)
  {
    if Holds(a, x) { assert Holds(a, clause[0]); }
    if Holds(a, y) { assert Holds(a, clause[1]); }
    if Holds(a, z) { assert Holds(a, clause[2]); }
  }

  /** Where an assignment follows the evaluated values below `v`, the
      definition of `v` computes the evaluated value of `v`. */
  lemma DefStep(defs: seq<Def>, env: Boundary, a: Assignment, v: nat)
    requires v < |defs| && DefBelow(defs[v], v)
    requires forall u :: 0 <= u < v ==> a(u) == VarValue(defs, env, u)
    ensures DefValue(defs[v], env, a) == VarValue(defs, env, v)
  {
  }

  predicate Follows(a: Assignment, defs: seq<Def>, env: Boundary, n: nat) {
    forall v :: 0 <= v < n ==> a(v) == VarValue(defs, env, v)
  }

  /** An assignment whose inputs follow `env` satisfies the formula exactly when
      every variable has its evaluated value. */
  lemma {:induction false} FormulaMeaning(defs: seq<Def>, env: Boundary, a: Assignment)
    requires Defining(defs)
    requires forall v :: 0 <= v < |defs| && defs[v].InputDef? ==> a(v) == env(defs[v].origin)
    ensures SatisfiesAll(a, Formula(defs)) <==> Follows(a, defs, env, |defs|)
    decreases |defs|
  {
    hide VarValue, SatisfiesAll, DefValue, DefClauses;
    if defs == [] {
      EmptyFormula(a);
    } else {
      var n := |defs| - 1;
      var init := defs[..n];
      FormulaMeaning(init, env, a);
      SatisfiesSplit(a, Formula(init), DefClauses(defs[n], n));
      FollowsPrefix(a, init, defs, env);
      if Follows(a, defs, env, n) {
        DefStep(defs, env, a, n);
        LastClauses(defs, env, a);
      }
    }
  }

  lemma EmptyFormula(a: Assignment)
    ensures SatisfiesAll(a, Formula([]))
  {
  }

  lemma FollowsPrefix(a: Assignment, init: seq<Def>, defs: seq<Def>, env: Boundary)
    requires init <= defs
    ensures Follows(a, init, env, |init|) == Follows(a, defs, env, |init|)
  {
    forall v: nat | v < |init|
      ensures VarValue(defs, env, v) == VarValue(init, env, v)
    {
      VarValuePrefix(init, defs, env, v);
    }
  }

  lemma LastClauses(defs: seq<Def>, env: Boundary, a: Assignment)
    requires defs != []
    requires var def := defs[|defs| - 1]; def.InputDef? ==> a(|defs| - 1) == env(def.origin)
    ensures var def := defs[|defs| - 1];
            SatisfiesAll(a, DefClauses(def, |defs| - 1)) <==> a(|defs| - 1) == DefValue(def, env, a)
  {
    var def := defs[|defs| - 1];
    if !def.InputDef? { GateClauses(def, |defs| - 1, env, a); }
  }
}
