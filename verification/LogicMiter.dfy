/** Clause encoding of logic networks, and the equivalence miter. */
module LogicMiter {
  import opened Lists
  import opened LogicNetwork
  import opened LogicCone
  import opened Cnf

  datatype FormalError = Invalid | Unsupported | SolverFailure
  datatype Result<+T> = Success(value: T) | Error(error: FormalError)

  /** Inputs of one origin share one variable; `defs` records what each variable stands for. */
  ghost predicate InputsMatch(inputs: map<nat, Atom>, defs: seq<Def>) {
    && (forall origin :: origin in inputs ==>
          !inputs[origin].negative && inputs[origin].v < |defs| && defs[inputs[origin].v] == InputDef(origin))
    && (forall v :: 0 <= v < |defs| && defs[v].InputDef? ==>
          defs[v].origin in inputs && inputs[defs[v].origin] == Atom(v, false))
  }

  /** The boundary values an assignment gives to the encoded inputs. */
  function BoundaryOf(inputs: map<nat, Atom>, a: Assignment): Boundary {
    origin => origin in inputs && Holds(a, inputs[origin])
  }

  class Miter {
    var clauses: seq<Clause>
    var variables: nat
    var constantFalse: Atom
    var inputs: map<nat, Atom>
    var clauseCount: nat
    var encodedNodes: nat
    var queries: nat
    ghost var defs: seq<Def>

    ghost predicate Valid()
      reads this
    {
      && variables == |defs| > 0
      && constantFalse == Atom(0, false) && defs[0] == FalseDef
      && Defining(defs)
      && clauses == Formula(defs) && clauseCount == |clauses|
      && InputsMatch(inputs, defs)
    }

    constructor ()
      ensures Valid() && defs == [FalseDef] && encodedNodes == 0 && queries == 0 && clauseCount == 1
    {
      clauses := [[Atom(0, true)]];
      variables := 1;
      constantFalse := Atom(0, false);
      inputs := map[];
      clauseCount := 1;
      encodedNodes := 0;
      queries := 0;
      defs := [FalseDef];
      new;
      assert defs[..0] == [];
      assert Formula(defs) == Formula(defs[..0]) + DefClauses(FalseDef, 0);
    }

    // ----- gates -----

    method AddClause(clause: Clause)
      modifies this`clauses, this`clauseCount
      ensures clauses == old(clauses) + [clause] && clauseCount == old(clauseCount) + 1
    {
      clauses := clauses + [clause];
      clauseCount := clauseCount + 1;
    }

    method NewAtom() returns (atom: Atom)
      modifies this`variables
      ensures variables == old(variables) + 1 && atom == Atom(old(variables), false)
    {
      atom := Atom(variables, false);
      variables := variables + 1;
    }

    /** Shares one variable among all inputs of an origin. */
    method Input(origin: nat) returns (atom: Atom)
      requires Valid()
      modifies this
      ensures Valid() && encodedNodes == old(encodedNodes) && queries == old(queries)
      ensures clauseCount == old(clauseCount)
      ensures defs == if origin in old(inputs) then old(defs) else old(defs) + [InputDef(origin)]
      ensures atom.v < |defs| && atom == Atom(atom.v, false) && defs[atom.v] == InputDef(origin)
    {
      if origin in inputs {
        atom := inputs[origin];
      } else {
        atom := FreshInput(origin);
      }
    }

    /** A new variable for an origin that has none yet; `inputs` is recorded and not consulted. */
    method FreshInput(origin: nat) returns (atom: Atom)
      requires Valid() && origin !in inputs
      modifies this
      ensures Valid() && encodedNodes == old(encodedNodes) && queries == old(queries)
      ensures clauseCount == old(clauseCount)
      ensures defs == old(defs) + [InputDef(origin)] && atom == Atom(|old(defs)|, false)
      ensures inputs == old(inputs)[origin := atom]
    {
      atom := NewAtom();
      Extend(inputs, defs, InputDef(origin));
      inputs := inputs[origin := atom];
      defs := defs + [InputDef(origin)];
    }

    method And(left: Atom, right: Atom) returns (out: Atom)
      requires Valid() && left.v < |defs| && right.v < |defs|
      modifies this
      ensures Valid() && encodedNodes == old(encodedNodes) && queries == old(queries)
      ensures inputs == old(inputs)
      ensures clauseCount == old(clauseCount) + 3
      ensures defs == old(defs) + [AndDef(left, right)] && out == Atom(|old(defs)|, false)
    {
      hide Formula, Defining, InputsMatch;
      ghost var c := clauses;
      out := NewAtom();
      AddClause([left.Not(), right.Not(), out]);
      AddClause([left, out.Not()]);
      AddClause([right, out.Not()]);
      Appended(c, [left.Not(), right.Not(), out], [left, out.Not()], [right, out.Not()], []);
      Extend(inputs, defs, AndDef(left, right));
      defs := defs + [AndDef(left, right)];
    }

    method Or(left: Atom, right: Atom) returns (out: Atom)
      requires Valid() && left.v < |defs| && right.v < |defs|
      modifies this
      ensures Valid() && encodedNodes == old(encodedNodes) && queries == old(queries)
      ensures inputs == old(inputs)
      ensures clauseCount == old(clauseCount) + 3
      ensures defs == old(defs) + [OrDef(left, right)] && out == Atom(|old(defs)|, false)
    {
      hide Formula, Defining, InputsMatch;
      ghost var c := clauses;
      out := NewAtom();
      AddClause([left, right, out.Not()]);
      AddClause([left.Not(), out]);
      AddClause([right.Not(), out]);
      Appended(c, [left, right, out.Not()], [left.Not(), out], [right.Not(), out], []);
      Extend(inputs, defs, OrDef(left, right));
      defs := defs + [OrDef(left, right)];
    }

    method Xor(left: Atom, right: Atom) returns (out: Atom)
      requires Valid() && left.v < |defs| && right.v < |defs|
      modifies this
      ensures Valid() && encodedNodes == old(encodedNodes) && queries == old(queries)
      ensures inputs == old(inputs)
      ensures clauseCount == old(clauseCount) + 4
      ensures defs == old(defs) + [XorDef(left, right)] && out == Atom(|old(defs)|, false)
    {
      hide Formula, Defining, InputsMatch;
      ghost var c := clauses;
      out := NewAtom();
      AddClause([left.Not(), right.Not(), out.Not()]);
      AddClause([left.Not(), right, out]);
      AddClause([left, right.Not(), out]);
      AddClause([left, right, out.Not()]);
      Appended(c, [left.Not(), right.Not(), out.Not()], [left.Not(), right, out], [left, right.Not(), out],
          [left, right, out.Not()]);
      Extend(inputs, defs, XorDef(left, right));
      defs := defs + [XorDef(left, right)];
    }

    method Mux(select: Atom, t: Atom, e: Atom) returns (out: Atom)
      requires Valid() && select.v < |defs| && t.v < |defs| && e.v < |defs|
      modifies this
      ensures Valid() && encodedNodes == old(encodedNodes) && queries == old(queries)
      ensures inputs == old(inputs)
      ensures clauseCount == old(clauseCount) + 4
      ensures defs == old(defs) + [MuxDef(select, t, e)] && out == Atom(|old(defs)|, false)
    {
      hide Formula, Defining, InputsMatch;
      ghost var c := clauses;
      out := NewAtom();
      AddClause([select.Not(), t.Not(), out]);
      AddClause([select.Not(), t, out.Not()]);
      AddClause([select, e.Not(), out]);
      AddClause([select, e, out.Not()]);
      Appended(c, [select.Not(), t.Not(), out], [select.Not(), t, out.Not()], [select, e.Not(), out],
          [select, e, out.Not()]);
      Extend(inputs, defs, MuxDef(select, t, e));
      defs := defs + [MuxDef(select, t, e)];
    }

    // ----- networks -----

    /** Encodes one node whose fanins are already encoded. */
    method EncodeNode(rows: seq<Row>, n: nat, encoded: seq<Option<Atom>>) returns (out: Atom)
      requires Valid() && WellFormed(rows) && 0 < n < |rows| && |encoded| == |rows|
      requires AllStand(defs, encoded, rows)
      requires encoded[0].Some? && forall f :: f in FaninNodes(rows[n]) && f < |rows| ==> encoded[f].Some?
      modifies this
      ensures Valid() && old(defs) <= defs && encodedNodes == old(encodedNodes) && queries == old(queries)
      ensures Stands(defs, out, rows, n)
      ensures clauseCount == old(clauseCount) + NodeClauses(rows[n].kind)
    {
      hide Value, VarValue, Formula, Defining, InputsMatch, Stands, StandsFor;
      var row := rows[n];
      FaninsEncoded(rows, n, encoded);
      ghost var before := defs;
      match row.kind
      case Input =>
        out := Input(row.origin);
        InputStands(defs, out.v, rows, n);
      case And =>
        var a, b := FaninAtom(encoded, row.fanin0), FaninAtom(encoded, row.fanin1);
        FaninStands(defs, encoded, rows, row.fanin0); FaninStands(defs, encoded, rows, row.fanin1);
        out := And(a, b);
        AppendedStands(before, AndDef(a, b), rows, n, a, b, b);
      case Xor =>
        var a, b := FaninAtom(encoded, row.fanin0), FaninAtom(encoded, row.fanin1);
        FaninStands(defs, encoded, rows, row.fanin0); FaninStands(defs, encoded, rows, row.fanin1);
        out := Xor(a, b);
        AppendedStands(before, XorDef(a, b), rows, n, a, b, b);
      case Mux =>
        var a, b, c := FaninAtom(encoded, row.fanin0), FaninAtom(encoded, row.fanin1), FaninAtom(encoded, row.fanin2);
        FaninStands(defs, encoded, rows, row.fanin0); FaninStands(defs, encoded, rows, row.fanin1);
        FaninStands(defs, encoded, rows, row.fanin2);
        out := Mux(a, b, c);
        AppendedStands(before, MuxDef(a, b, c), rows, n, a, b, c);
      case Constant => assert false;
    }

    /** Encodes the cone of the outputs, node by node in level order. The only
        failure is an output outside the network: a fanin is never met before
        it is encoded. */
    method EncodeNetwork(rows: seq<Row>, outputs: seq<Lit>) returns (result: Result<seq<Atom>>)
      requires Valid() && WellFormed(rows) && Levelled(rows)
      modifies this
      ensures Valid() && old(defs) <= defs && queries == old(queries)
      ensures result == Error(Invalid) || result.Success?
      ensures result.Success? <==> forall i :: 0 <= i < |outputs| ==> outputs[i].node < |rows|
      ensures result.Error? ==> defs == old(defs) && inputs == old(inputs) && encodedNodes == old(encodedNodes)
      ensures result.Success? ==>
                && encodedNodes == old(encodedNodes) + |Cone(rows, outputs)|
                && AllStandFor(defs, result.value, rows, outputs)
                && clauseCount == old(clauseCount) + ConeClauses(rows, Cone(rows, outputs), |rows|)
    {
      hide Value, VarValue, Formula, Defining, InputsMatch, Stands, StandsFor, WellFormed, Levelled, SortByLevel,
          FaninNodes, Cone, ConeClauses;
      var collected := Collect(rows, outputs);
      if collected.None? { return Error(Invalid); }
      ghost var order := collected.value;
      ConeInside(rows, outputs, order);
      SortKeeps(rows, order);
      SetOfDistinct(order);
      var sorted := SortByLevel(rows, collected.value);
      NonEmpty(rows);
      SortedCone(rows, outputs, order, sorted);
      var encoded := seq(|rows|, _ => None)[0 := Some(constantFalse)];
      ConstantStands(defs, rows);
      for k := 0 to |sorted|
        invariant Valid() && old(defs) <= defs && queries == old(queries) && encodedNodes == old(encodedNodes)
        invariant |encoded| == |rows| && encoded[0].Some? && AllStand(defs, encoded, rows)
        invariant forall j :: 0 <= j < k ==> encoded[sorted[j]].Some?
        invariant clauseCount == old(clauseCount) + ListClauses(rows, sorted, k)
      {
        var n := sorted[k];
        assert n in sorted;
        forall f | f in FaninNodes(rows[n]) && f < |rows| ensures encoded[f].Some? {
          SortIsTopological(rows, outputs, order, k, f);
        }
        ghost var before := defs;
        var out := EncodeNode(rows, n, encoded);
        AllStandKept(before, defs, encoded, rows);
        encoded := encoded[n := Some(out)];
      }
      forall i | 0 <= i < |outputs| ensures encoded[outputs[i].node].Some? {
        OutputInCone(rows, outputs, i);
        if outputs[i].node != 0 { assert outputs[i].node in Members(order); }
      }
      var atoms: seq<Atom> := seq(|outputs|, i requires 0 <= i < |outputs| && outputs[i].node < |encoded|
          && encoded[outputs[i].node].Some? =>
        FaninAtom(encoded, outputs[i]));
      forall i | 0 <= i < |outputs| ensures StandsFor(defs, atoms[i], rows, outputs[i]) {
        FaninStands(defs, encoded, rows, outputs[i]);
      }
      encodedNodes := encodedNodes + |sorted|;
      result := Success(atoms);
    }

    /** Asks the solver about the current clauses under assumptions. */
    method Solve(solver: Solver, assumptions: seq<Atom>) returns (verdict: Verdict)
      modifies this`queries
      ensures verdict == solver(old(queries), clauses, assumptions) && queries == old(queries) + 1
    {
      verdict := solver(queries, clauses, assumptions);
      queries := queries + 1;
    }
  }

  /** The sorted cone defines the clauses of the cone. */
  lemma SortedCone(rows: seq<Row>, outputs: seq<Lit>, order: seq<nat>, sorted: seq<nat>)
    requires InNetwork(rows, order) && Distinct(sorted) && Members(order) == Cone(rows, outputs)
    requires forall n :: n in sorted <==> n in order
    ensures InNetwork(rows, sorted)
    ensures ListClauses(rows, sorted, |sorted|) == ConeClauses(rows, Cone(rows, outputs), |rows|)
  {
    hide Cone, ConeClauses, ListClauses;
    forall i | 0 <= i < |sorted| ensures sorted[i] < |rows| {
      assert sorted[i] in order;
      var j :| 0 <= j < |order| && order[j] == sorted[i];
    }
    ListIsSet(rows, sorted, |sorted|);
    assert sorted[..|sorted|] == sorted;
    assert Members(sorted) == Members(order);
  }

  ghost predicate AllStandFor(defs: seq<Def>, atoms: seq<Atom>, rows: seq<Row>, outputs: seq<Lit>) {
    |atoms| == |outputs| && forall i :: 0 <= i < |outputs| ==> StandsFor(defs, atoms[i], rows, outputs[i])
  }

  lemma AllStandForKept(defs: seq<Def>, defs': seq<Def>, atoms: seq<Atom>, rows: seq<Row>, outputs: seq<Lit>)
    requires defs <= defs' && AllStandFor(defs, atoms, rows, outputs)
    ensures AllStandFor(defs', atoms, rows, outputs)
  {
    hide StandsFor;
    forall i | 0 <= i < |outputs| ensures StandsFor(defs', atoms[i], rows, outputs[i]) {
      StandsForKept(defs, defs', atoms[i], rows, outputs[i]);
    }
  }

  lemma AllStandKept(defs: seq<Def>, defs': seq<Def>, encoded: seq<Option<Atom>>, rows: seq<Row>)
    requires defs <= defs' && AllStand(defs, encoded, rows)
    ensures AllStand(defs', encoded, rows)
  {
    hide Stands;
    forall n | 0 <= n < |encoded| && encoded[n].Some? ensures Stands(defs', encoded[n].value, rows, n) {
      StandsKept(defs, defs', encoded[n].value, rows, n);
    }
  }

  lemma NonEmpty(rows: seq<Row>)
    requires WellFormed(rows)
    ensures 0 < |rows|
  {
  }

  lemma ConstantStands(defs: seq<Def>, rows: seq<Row>)
    requires WellFormed(rows) && 0 < |defs| && defs[0] == FalseDef
    ensures Stands(defs, Atom(0, false), rows, 0)
  {
    assert GoodRow(rows[0], 0);
  }

  lemma ConeInside(rows: seq<Row>, outputs: seq<Lit>, order: seq<nat>)
    requires Members(order) == Cone(rows, outputs)
    ensures InNetwork(rows, order) && forall n :: n in order ==> 0 < n
  {
    forall n | n in order ensures 0 < n < |rows| {
      assert n in Members(order);
      var i :| 0 <= i < |outputs| && Reaches(rows, outputs[i].node, n);
      ReachesNodes(rows, outputs[i].node, n);
    }
    forall i | 0 <= i < |order| ensures order[i] < |rows| {
      assert order[i] in order;
    }
  }

  lemma OutputInCone(rows: seq<Row>, outputs: seq<Lit>, i: nat)
    requires i < |outputs| && outputs[i].node < |rows|
    ensures outputs[i].node != 0 ==> outputs[i].node in Cone(rows, outputs)
  {
    if outputs[i].node != 0 {
      assert Reaches(rows, outputs[i].node, outputs[i].node);
      assert InCone(rows, outputs, outputs[i].node);
    }
  }

  ghost predicate AllStand(defs: seq<Def>, encoded: seq<Option<Atom>>, rows: seq<Row>) {
    forall n :: 0 <= n < |encoded| && encoded[n].Some? ==> Stands(defs, encoded[n].value, rows, n)
  }

  function FaninAtom(encoded: seq<Option<Atom>>, l: Lit): Atom
    requires l.node < |encoded| && encoded[l.node].Some?
  {
    Phased(encoded[l.node].value, l)
  }

  lemma FaninStands(defs: seq<Def>, encoded: seq<Option<Atom>>, rows: seq<Row>, l: Lit)
    requires AllStand(defs, encoded, rows) && l.node < |encoded| && encoded[l.node].Some?
    ensures FaninAtom(encoded, l).v < |defs| && StandsFor(defs, FaninAtom(encoded, l), rows, l)
  {
    PhasedStands(defs, encoded[l.node].value, rows, l);
  }

  /** The fanins of a gate are encoded, constants included. */
  lemma FaninsEncoded(rows: seq<Row>, n: nat, encoded: seq<Option<Atom>>)
    requires WellFormed(rows) && 0 < n < |rows| && |encoded| == |rows|
    requires encoded[0].Some? && forall f :: f in FaninNodes(rows[n]) && f < |rows| ==> encoded[f].Some?
    ensures !rows[n].kind.Constant?
    ensures rows[n].kind.Arity() >= 2 ==>
              && rows[n].fanin0.node < |rows| && encoded[rows[n].fanin0.node].Some?
              && rows[n].fanin1.node < |rows| && encoded[rows[n].fanin1.node].Some?
    ensures rows[n].kind.Mux? ==> rows[n].fanin2.node < |rows| && encoded[rows[n].fanin2.node].Some?
  {
    assert GoodRow(rows[n], n);
  }

  lemma InputStands(defs: seq<Def>, v: nat, rows: seq<Row>, n: nat)
    requires n < |rows| && rows[n].kind.Input? && v < |defs| && defs[v] == InputDef(rows[n].origin)
    ensures Stands(defs, Atom(v, false), rows, n)
  {
  }

  lemma AppendedStands(defs: seq<Def>, def: Def, rows: seq<Row>, n: nat, a: Atom, b: Atom, c: Atom)
    requires WellFormed(rows) && n < |rows| && DefBelow(def, |defs|) && DefFor(rows[n], def, a, b, c)
    requires rows[n].kind.Arity() >= 2 ==>
        StandsFor(defs, a, rows, rows[n].fanin0) && StandsFor(defs, b, rows, rows[n].fanin1)
    requires rows[n].kind.Mux? ==> StandsFor(defs, c, rows, rows[n].fanin2)
    ensures Stands(defs + [def], Atom(|defs|, false), rows, n)
  {
    hide Value, VarValue;
    if rows[n].kind.Arity() >= 2 {
      StandsForKept(defs, defs + [def], a, rows, rows[n].fanin0);
      StandsForKept(defs, defs + [def], b, rows, rows[n].fanin1);
      if rows[n].kind.Mux? { StandsForKept(defs, defs + [def], c, rows, rows[n].fanin2); }
    }
    GateStands(defs + [def], |defs|, rows, n, a, b, c);
  }

  lemma StandsForKept(defs: seq<Def>, defs': seq<Def>, atom: Atom, rows: seq<Row>, l: Lit)
    requires defs <= defs' && StandsFor(defs, atom, rows, l)
    ensures StandsFor(defs', atom, rows, l)
  {
    forall env: Boundary
      ensures AtomValue(defs', env, atom) == LitValue(rows, env, l)
    {
      VarValuePrefix(defs, defs', env, atom.v);
      assert AtomValue(defs, env, atom) == LitValue(rows, env, l);
    }
  }

  lemma Extend(inputs: map<nat, Atom>, defs: seq<Def>, def: Def)
    requires Defining(defs) && DefBelow(def, |defs|) && InputsMatch(inputs, defs)
    ensures Formula(defs + [def]) == Formula(defs) + DefClauses(def, |defs|)
    ensures Defining(defs + [def])
    ensures !def.InputDef? ==> InputsMatch(inputs, defs + [def])
    ensures def.InputDef? && def.origin !in inputs ==>
      InputsMatch(inputs[def.origin := Atom(|defs|, false)], defs + [def])
  {
    hide InputsMatch, DefClauses, DefBelow;
    assert (defs + [def])[..|defs|] == defs;
    ExtendInputs(inputs, defs, def);
  }

  lemma ExtendInputs(inputs: map<nat, Atom>, defs: seq<Def>, def: Def)
    requires InputsMatch(inputs, defs)
    ensures !def.InputDef? ==> InputsMatch(inputs, defs + [def])
    ensures def.InputDef? && def.origin !in inputs ==>
      InputsMatch(inputs[def.origin := Atom(|defs|, false)], defs + [def])
  {
  }

  // ----- what an atom stands for -----

  /** Under every boundary, the atom has the value of the node. */
  ghost predicate Stands(defs: seq<Def>, atom: Atom, rows: seq<Row>, n: nat) {
    atom.v < |defs| && forall env: Boundary :: AtomValue(defs, env, atom) == Value(rows, env, n)
  }

  ghost predicate StandsFor(defs: seq<Def>, atom: Atom, rows: seq<Row>, l: Lit) {
    atom.v < |defs| && forall env: Boundary :: AtomValue(defs, env, atom) == LitValue(rows, env, l)
  }

  lemma StandsKept(defs: seq<Def>, defs': seq<Def>, atom: Atom, rows: seq<Row>, n: nat)
    requires defs <= defs' && Stands(defs, atom, rows, n)
    ensures Stands(defs', atom, rows, n)
  {
    forall env: Boundary
      ensures AtomValue(defs', env, atom) == Value(rows, env, n)
    {
      VarValuePrefix(defs, defs', env, atom.v);
      assert AtomValue(defs, env, atom) == Value(rows, env, n);
    }
  }

  function Phased(atom: Atom, l: Lit): Atom {
    if l.inverted then atom.Not() else atom
  }

  lemma PhasedStands(defs: seq<Def>, atom: Atom, rows: seq<Row>, l: Lit)
    requires Stands(defs, atom, rows, l.node)
    ensures StandsFor(defs, Phased(atom, l), rows, l)
  {
    forall env: Boundary
      ensures AtomValue(defs, env, Phased(atom, l)) == LitValue(rows, env, l)
    {
      assert AtomValue(defs, env, atom) == Value(rows, env, l.node);
    }
  }

  /** The definition that encodes a row, given the atoms of its fanins. */
  predicate DefFor(row: Row, def: Def, a: Atom, b: Atom, c: Atom) {
    match row.kind
    case Constant => false
    case Input => def == InputDef(row.origin)
    case And => def == AndDef(a, b)
    case Xor => def == XorDef(a, b)
    case Mux => def == MuxDef(a, b, c)
  }

  /** A definition over atoms that stand for the fanins stands for the gate. */
  lemma GateStands(defs: seq<Def>, v: nat, rows: seq<Row>, n: nat, a: Atom, b: Atom, c: Atom)
    requires WellFormed(rows) && n < |rows| && v < |defs| && DefBelow(defs[v], v)
    requires DefFor(rows[n], defs[v], a, b, c)
    requires rows[n].kind.Arity() >= 2 ==>
        StandsFor(defs, a, rows, rows[n].fanin0) && StandsFor(defs, b, rows, rows[n].fanin1)
    requires rows[n].kind.Mux? ==> StandsFor(defs, c, rows, rows[n].fanin2)
    ensures Stands(defs, Atom(v, false), rows, n)
  {
    assert GoodRow(rows[n], n);
    forall env: Boundary
      ensures AtomValue(defs, env, Atom(v, false)) == Value(rows, env, n)
    {
      if rows[n].kind.Arity() >= 2 {
        assert AtomValue(defs, env, a) == LitValue(rows, env, rows[n].fanin0);
        assert AtomValue(defs, env, b) == LitValue(rows, env, rows[n].fanin1);
        if rows[n].kind.Mux? { assert AtomValue(defs, env, c) == LitValue(rows, env, rows[n].fanin2); }
      }
    }
  }

  lemma Appended<T>(s: seq<T>, a: T, b: T, c: T, d: T)
    ensures s + [a] + [b] + [c] == s + [a, b, c]
    ensures s + [a] + [b] + [c] + [d] == s + [a, b, c, d]
  {
  }
}
