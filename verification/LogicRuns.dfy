/** Whole builder runs: whatever is built later, every literal a builder has
    handed out keeps denoting its operation, and asking again changes nothing. */
module LogicRuns {
  import opened Lists
  import opened LogicNetwork
  import opened Canonical
  import opened CanonicalMeaning
  import opened CanonicalReplay
  import opened CanonicalReduced

  datatype Op =
    | InputOp(origin: nat)
    | AndOp(left: Lit, right: Lit, origin: nat)
    | OrOp(left: Lit, right: Lit, origin: nat)
    | XorOp(left: Lit, right: Lit, origin: nat)
    | MuxOp(select: Lit, whenTrue: Lit, whenFalse: Lit, origin: nat)

  predicate LegalOp(store: Store, op: Op) {
    match op
    case InputOp(_) => true
    case AndOp(l, r, _) => Legal(store, l) && Legal(store, r)
    case OrOp(l, r, _) => Legal(store, l) && Legal(store, r)
    case XorOp(l, r, _) => Legal(store, l) && Legal(store, r)
    case MuxOp(s, t, e, _) => Legal(store, s) && Legal(store, t) && Legal(store, e)
  }

  function Apply(store: Store, op: Op): (step: Step)
    requires store.mode.Building? && Inv(store) && LegalOp(store, op)
    ensures Inv(step.store) && Extends(store, step.store)
    ensures step.answer.Ok? ==> Legal(step.store, step.answer.lit)
    ensures step.answer.Err? ==> step.answer.failure.Capacity? && Full(step.store)
  {
    hide Inv, BuildInput, BuildAnd, BuildOr, BuildXor, BuildMux;
    match op
    case InputOp(origin) => BuildInput(store, origin)
    case AndOp(l, r, origin) => BuildAnd(store, l, r, origin)
    case OrOp(l, r, origin) => BuildOr(store, l, r, origin)
    case XorOp(l, r, origin) => BuildXor(store, l, r, origin)
    case MuxOp(s, t, e, origin) => BuildMux(store, s, t, e, origin)
  }

  /** Each operation uses only literals the builder has at that point; an
      operation that fails for capacity leaves the run going. */
  predicate LegalRun(store: Store, ops: seq<Op>)
    decreases |ops|
  {
    hide Inv, Apply;
    && store.mode.Building? && Inv(store)
    && (ops == [] || (LegalOp(store, ops[0]) && LegalRun(Apply(store, ops[0]).store, ops[1..])))
  }

  function Run(store: Store, ops: seq<Op>): (final: Store)
    requires LegalRun(store, ops)
    decreases |ops|
    ensures final.mode.Building? && Inv(final) && Extends(store, final)
  {
    hide Inv, Apply;
    if ops == [] then store else Run(Apply(store, ops[0]).store, ops[1..])
  }

  /** What an operation denotes, read in any store that still has its operands. */
  function Denotes(rows: seq<Row>, env: Env, op: Op): bool {
    match op
    case InputOp(origin) => env(origin)
    case AndOp(l, r, _) => LitValue(rows, env, l) && LitValue(rows, env, r)
    case OrOp(l, r, _) => LitValue(rows, env, l) || LitValue(rows, env, r)
    case XorOp(l, r, _) => LitValue(rows, env, l) != LitValue(rows, env, r)
    case MuxOp(s, t, e, _) => if LitValue(rows, env, s) then LitValue(rows, env, t) else LitValue(rows, env, e)
  }

  lemma ApplyMeaning(store: Store, op: Op, env: Env)
    requires store.mode.Building? && Inv(store) && LegalOp(store, op)
    ensures var step := Apply(store, op);
            step.answer.Ok? ==> LitValue(step.store.rows, env, step.answer.lit) == Denotes(store.rows, env, op)
  {
    hide Inv, BuildAnd, BuildOr, BuildXor, BuildMux;
    match op
    case InputOp(origin) =>
    case AndOp(l, r, origin) => AndMeaning(store, l, r, origin, env);
    case OrOp(l, r, origin) => OrMeaning(store, l, r, origin, env);
    case XorOp(l, r, origin) => XorMeaning(store, l, r, origin, env);
    case MuxOp(s, t, e, origin) => MuxMeaning(store, s, t, e, origin, env);
  }

  lemma DenotesKept(store: Store, store': Store, op: Op, env: Env)
    requires Extends(store, store') && LegalOp(store, op)
    ensures LegalOp(store', op) && Denotes(store'.rows, env, op) == Denotes(store.rows, env, op)
  {
    hide Value;
    match op
    case InputOp(_) =>
    case AndOp(l, r, _) => ValueKept(store, store', env, l); ValueKept(store, store', env, r);
    case OrOp(l, r, _) => ValueKept(store, store', env, l); ValueKept(store, store', env, r);
    case XorOp(l, r, _) => ValueKept(store, store', env, l); ValueKept(store, store', env, r);
    case MuxOp(s, t, e, _) =>
      ValueKept(store, store', env, s); ValueKept(store, store', env, t); ValueKept(store, store', env, e);
  }

  lemma ApplyAgain(store: Store, op: Op, later: Store)
    requires store.mode.Building? && Inv(store) && LegalOp(store, op) && !op.InputOp?
    requires Apply(store, op).answer.Ok?
    requires Inv(later) && Extends(Apply(store, op).store, later)
    ensures LegalOp(later, op) && Apply(later, op) == Step(later, Apply(store, op).answer)
  {
    hide Inv, BuildAnd, BuildOr, BuildXor, BuildMux;
    var step := Apply(store, op);
    CoversTransitive(step.store, step.store, later);
    match op
    case InputOp(_) =>
    case AndOp(l, r, origin) => ReplayAnd(store, later, l, r, origin, origin);
    case OrOp(l, r, origin) => ReplayOr(store, later, l, r, origin, origin);
    case XorOp(l, r, origin) => ReplayXor(store, later, l, r, origin, origin);
    case MuxOp(s, t, e, origin) => ReplayMux(store, later, s, t, e, origin, origin);
  }

  /** A literal handed out anywhere in a run still denotes its operation at the
      end of the run, and repeating that operation there returns the same
      literal and allocates nothing. An operation can only have failed if the
      literal space is used up. */
  lemma {:induction false} RunKeepsAnswers(store: Store, ops: seq<Op>, i: nat, env: Env)
    requires LegalRun(store, ops) && i < |ops|
    ensures LegalRun(store, ops[..i]) && LegalOp(Run(store, ops[..i]), ops[i])
    ensures var answer := Apply(Run(store, ops[..i]), ops[i]).answer;
            var final := Run(store, ops);
            LegalOp(final, ops[i])
            && (answer.Err? ==> Full(final))
            && (answer.Ok? ==>
               && LitValue(final.rows, env, answer.lit) == Denotes(final.rows, env, ops[i])
               && (!ops[i].InputOp? ==> Apply(final, ops[i]) == Step(final, answer)))
    decreases |ops|
  {
    hide Inv, Apply, Value, LegalOp, Denotes;
    var step := Apply(store, ops[0]);
    if i == 0 {
      assert ops[..0] == [];
      var final := Run(step.store, ops[1..]);
      DenotesKept(store, step.store, ops[0], env);
      DenotesKept(step.store, final, ops[0], env);
      ApplyMeaning(store, ops[0], env);
      if step.answer.Ok? {
        ValueKept(step.store, final, env, step.answer.lit);
        if !ops[0].InputOp? { ApplyAgain(store, ops[0], final); }
      }
    } else {
      assert ops[..i][0] == ops[0] && ops[..i][1..] == ops[1..][..i - 1] && ops[1..][i - 1] == ops[i];
      RunKeepsAnswers(step.store, ops[1..], i - 1, env);
    }
  }

  /** Every node an operation adds is reduced and carries the operation's origin. */
  lemma ApplyReduced(store: Store, op: Op)
    requires store.mode.Building? && Inv(store) && LegalOp(store, op) && Reduced(store.rows)
    ensures Reduced(Apply(store, op).store.rows)
    ensures Stamped(store.rows, Apply(store, op).store.rows, op.origin)
  {
    hide Reduced, BuildAnd, BuildOr, BuildXor, BuildMux, Levelled, Interned;
    match op
    case InputOp(origin) => ReducedAppend(store.rows, Row(Input, FALSE, FALSE, FALSE, 0, origin));
    case AndOp(l, r, origin) => ReducedAnd(store, l, r, origin);
    case OrOp(l, r, origin) => ReducedOr(store, l, r, origin);
    case XorOp(l, r, origin) => ReducedXor(store, l, r, origin);
    case MuxOp(s, t, e, origin) => ReducedMux(store, s, t, e, origin);
  }

  lemma {:induction false} RunReduced(store: Store, ops: seq<Op>)
    requires LegalRun(store, ops) && Reduced(store.rows)
    ensures Reduced(Run(store, ops).rows)
    decreases |ops|
  {
    hide Inv, Apply, Reduced, LegalOp;
    if ops != [] {
      ApplyReduced(store, ops[0]);
      RunReduced(Apply(store, ops[0]).store, ops[1..]);
    }
  }

  /** The canonical form of every network a fresh builder can reach: fanins are
      earlier nodes at lower levels, every gate obeys the normal form of its
      kind, no rewrite applies to a stored gate, and no two addressable gates
      share a structural key. */
  lemma ReachableIsCanonical(ops: seq<Op>, n: nat)
    requires LegalRun(EMPTY, ops) && n < |Run(EMPTY, ops).rows|
    ensures var rows := Run(EMPTY, ops).rows;
            var row := rows[n];
            && (row.kind.Arity() >= 2 ==>
                  && row.fanin0.node < n && rows[row.fanin0.node].level < row.level
                  && row.fanin1.node < n && rows[row.fanin1.node].level < row.level)
            && (row.kind.Mux? ==> row.fanin2.node < n && rows[row.fanin2.node].level < row.level)
            && (row.kind.And? ==> CanonicalAnd(row.fanin0, row.fanin1) && Unabsorbed(rows, row.fanin0, row.fanin1))
            && (row.kind.Xor? ==> CanonicalXor(row.fanin0, row.fanin1) && Uncancelled(rows, row.fanin0, row.fanin1))
            && (row.kind.Mux? ==> CanonicalMux(row.fanin0, row.fanin1, row.fanin2))
            && (row.kind.Mux? ==> Irreducible(rows, row.fanin0, row.fanin1, row.fanin2))
            && (n < LITERAL_NODES && KeyOf(row).Some? ==>
                  forall m :: 0 <= m < |rows| && m < LITERAL_NODES && KeyOf(rows[m]) == KeyOf(row) ==> m == n)
  {
    hide Run, Irreducible, Unabsorbed, Uncancelled;
    var final := Run(EMPTY, ops);
    RunReduced(EMPTY, ops);
    assert ReducedRow(final.rows, n);
    assert GoodRow(final.rows[n], n) && LevelAbove(final.rows, n) && Interned(final);
  }

  lemma EmptyIsReduced()
    ensures Reduced(EMPTY.rows)
  {
  }

  // ----- levels -----

  predicate FaninOf(rows: seq<Row>, n: nat, f: nat)
    requires n < |rows|
  {
    rows[n].kind.Arity() >= 2
    && (rows[n].fanin0.node == f || rows[n].fanin1.node == f || (rows[n].kind.Mux? && rows[n].fanin2.node == f))
  }

  /** A path from a node down its fanins. */
  predicate FaninPath(rows: seq<Row>, path: seq<nat>) {
    && path != [] && path[0] < |rows|
    && forall i :: 0 <= i < |path| - 1 ==> path[i] < |rows| && FaninOf(rows, path[i], path[i + 1])
  }

  lemma {:induction false} LevelBoundsPaths(rows: seq<Row>, path: seq<nat>)
    requires WellFormed(rows) && Levelled(rows) && FaninPath(rows, path)
    ensures |path| - 1 <= rows[path[0]].level
    decreases |path|
  {
    if |path| > 1 {
      assert FaninOf(rows, path[0], path[0 + 1]);
      assert GoodRow(rows[path[0]], path[0]) && LevelAbove(rows, path[0]);
      var rest := path[1..];
      forall i | 0 <= i < |rest| - 1 ensures rest[i] < |rows| && FaninOf(rows, rest[i], rest[i + 1]) {
        assert path[i + 1] < |rows| && FaninOf(rows, path[i + 1], path[i + 1 + 1]);
      }
      LevelBoundsPaths(rows, rest);
    }
  }

  lemma {:induction false} LevelHasPath(rows: seq<Row>, n: nat) returns (path: seq<nat>)
    requires WellFormed(rows) && Reduced(rows) && n < |rows|
    ensures FaninPath(rows, path) && path[0] == n && |path| - 1 == rows[n].level
    decreases n
  {
    assert ReducedRow(rows, n) && GoodRow(rows[n], n);
    var row := rows[n];
    if row.kind.Arity() < 2 {
      path := [n];
    } else {
      var f := if LevelIs(rows, row.fanin0, row.level - 1) then row.fanin0.node
               else if LevelIs(rows, row.fanin1, row.level - 1) then row.fanin1.node else row.fanin2.node;
      var rest := LevelHasPath(rows, f);
      path := [n] + rest;
      forall i | 0 <= i < |path| - 1 ensures path[i] < |rows| && FaninOf(rows, path[i], path[i + 1]) {
        if i > 0 { assert rest[i - 1] < |rows| && FaninOf(rows, rest[i - 1], rest[i - 1 + 1]); }
      }
    }
  }

  /** In every reachable network the stored level of a node is the length of its longest path of fanins. */
  lemma LevelIsLongestPath(ops: seq<Op>, n: nat) returns (longest: seq<nat>)
    requires LegalRun(EMPTY, ops) && n < |Run(EMPTY, ops).rows|
    ensures var rows := Run(EMPTY, ops).rows;
            && FaninPath(rows, longest) && longest[0] == n && |longest| - 1 == rows[n].level
            && forall path :: FaninPath(rows, path) && path[0] == n ==> |path| <= |longest|
  {
    EmptyIsReduced();
    hide Run, Reduced, WellFormed, Levelled;
    var rows := Run(EMPTY, ops).rows;
    RunReduced(EMPTY, ops);
    longest := LevelHasPath(rows, n);
    forall path | FaninPath(rows, path) && path[0] == n ensures |path| <= |longest| { LevelBoundsPaths(rows, path); }
  }

  lemma FreshBuilderIsValid()
    ensures Inv(EMPTY) && LegalRun(EMPTY, [])
  {
    assert LevelAbove(EMPTY.rows, 0);
  }
}
