/** When an absent key means an absent node. A probe stops at the first missing key;
    the node of the whole expression is then missing as well, unless two multiplexers
    are factored around an inner one that is missing and itself takes several keys. */
module LogicAbsence {
  import opened Lists
  import opened LogicNetwork
  import opened Canonical
  import opened CanonicalReduced
  import opened CanonicalSymmetry
  import opened LogicProbe

  /** A builder, and the probe of its frozen network. */
  ghost predicate Views(builder: Store, probe: Store) {
    && builder.mode.Building? && Inv(builder) && Reduced(builder.rows)
    && probe == Frozen(builder, probe.index) && IsIndexOf(builder.rows, probe.index) && Inv(probe)
  }

  /** Nothing is allocated, or the answer is a new node. */
  predicate Settles(store: Store, step: Step) {
    step.answer.Ok? ==> step.store == store || step.answer.lit.node >= |store.rows|
  }

  // ----- the guard, decided on the frozen network -----

  /** The multiplexer is looked up under a single key: its own, or that of the one
      conjunction or exclusive-or it amounts to. */
  predicate OneKey(probe: Store, s: Lit, t: Lit, e: Lit) {
    if t.inverted && e.inverted then OneKeyNormal(probe, s, t.Positive(), e.Positive())
    else OneKeyNormal(probe, s, t, e)
  }

  predicate OneKeyNormal(probe: Store, s: Lit, t: Lit, e: Lit) {
    || t == e.Not() || t == s.Not() || e.node == s.node
    || (t == s && OrFactor(probe, s, e).None?)
    || (CanonicalMux(s, t, e) && Irreducible(probe.rows, s, t, e))
  }

  predicate DirectOr(probe: Store, left: Lit, right: Lit)
    requires probe.mode.Probing? && Inv(probe) && Legal(probe, left) && Legal(probe, right)
    decreases Weight(probe, left) + Weight(probe, right), 0
  {
    hide Inv, Size;
    match OrFactor(probe, left, right)
    case Some((s, t, e)) => OrFactorWeight(probe, left, right); DirectMux(probe, s, t, e)
    case None => true
  }

  /** Along the rewrites of a multiplexer, no pair of arms is factored around a
      missing inner multiplexer, unless that one has a single key. */
  predicate DirectMux(probe: Store, select: Lit, whenTrue: Lit, whenFalse: Lit)
    requires probe.mode.Probing? && Inv(probe)
    requires Legal(probe, select) && Legal(probe, whenTrue) && Legal(probe, whenFalse)
    decreases Weight(probe, select) + Weight(probe, whenTrue) + Weight(probe, whenFalse), 5
  {
    hide Inv, Size;
    if select.IsConstant() || whenTrue == whenFalse || (whenTrue.IsConstant() && whenFalse.IsConstant()) then true
    else
      var (t, e) := if select.inverted then (whenFalse, whenTrue) else (whenTrue, whenFalse);
      if t.inverted && e.inverted then DirectReduce(probe, select.Positive(), t.Positive(), e.Positive())
      else DirectReduce(probe, select.Positive(), t, e)
  }

  predicate DirectReduce(probe: Store, select: Lit, t: Lit, e: Lit)
    requires probe.mode.Probing? && Inv(probe) && Legal(probe, select) && Legal(probe, t) && Legal(probe, e)
    requires Normal(select, t, e)
    decreases Weight(probe, select) + Weight(probe, t) + Weight(probe, e), 4
  {
    hide Inv, Size;
    if t == e.Not() then true
    else if t == TRUE || t == select then DirectOr(probe, select, e)
    else if t == FALSE || t == select.Not() then true
    else if e == FALSE || e == select then true
    else if e == TRUE || e == select.Not() then DirectOr(probe, select.Not(), t)
    else DirectCollapse(probe, select, t, e)
  }

  predicate DirectCollapse(probe: Store, select: Lit, t: Lit, e: Lit)
    requires probe.mode.Probing? && Inv(probe) && Legal(probe, select) && Legal(probe, t) && Legal(probe, e)
    requires CanonicalMux(select, t, e)
    decreases Weight(probe, select) + Weight(probe, t) + Weight(probe, e), 3
  {
    hide Inv, Size;
    var (t', e') := Collapsed(probe, select, t, e);
    CollapsedWeight(probe, select, t, e);
    if t' != t || e' != e then DirectMux(probe, select, t', e')
    else DirectFactor(probe, select, t, e)
  }

  predicate DirectFactor(probe: Store, select: Lit, t: Lit, e: Lit)
    requires probe.mode.Probing? && Inv(probe) && Legal(probe, select) && Legal(probe, t) && Legal(probe, e)
    requires CanonicalMux(select, t, e)
    decreases Weight(probe, select) + Weight(probe, t) + Weight(probe, e), 2
  {
    hide Inv, Size;
    MuxArmsWeight(probe, t, e);
    var tm, em := MuxFanins(probe.rows, t), MuxFanins(probe.rows, e);
    var w := Weight(probe, select) + Weight(probe, t) + Weight(probe, e);
    if tm.Some? && e == tm.value.2 then
      DirectNext(probe, BuildAnd(probe, select, tm.value.0, 0), AsSelect(tm.value.1, tm.value.2), w, true)
    else if tm.Some? && e == tm.value.1 then
      DirectNext(probe, BuildOr(probe, select.Not(), tm.value.0, 0), AsSelect(tm.value.1, tm.value.2), w,
                 DirectOr(probe, select.Not(), tm.value.0))
    else if em.Some? && t == em.value.1 then
      DirectNext(probe, BuildOr(probe, select, em.value.0, 0), AsSelect(em.value.1, em.value.2), w,
                 DirectOr(probe, select, em.value.0))
    else if em.Some? && t == em.value.2 then
      DirectNext(probe, BuildAnd(probe, select.Not(), em.value.0, 0), AsSelect(em.value.1, em.value.2), w, true)
    else DirectShare(probe, select, t, e)
  }

  predicate DirectShare(probe: Store, select: Lit, t: Lit, e: Lit)
    requires probe.mode.Probing? && Inv(probe) && Legal(probe, select) && Legal(probe, t) && Legal(probe, e)
    requires CanonicalMux(select, t, e)
    decreases Weight(probe, select) + Weight(probe, t) + Weight(probe, e), 1
  {
    hide Inv, Size;
    MuxArmsWeight(probe, t, e);
    var tm, em := MuxFanins(probe.rows, t), MuxFanins(probe.rows, e);
    var w := Weight(probe, select) + Weight(probe, t) + Weight(probe, e);
    if tm.Some? && em.Some? && tm.value.0 == em.value.0 && tm.value.1 == em.value.1 then
      DirectNext(probe, BuildMux(probe, select, tm.value.2, em.value.2, 0), AsElse(tm.value.0, tm.value.1), w,
                 OneKey(probe, select, tm.value.2, em.value.2))
    else if tm.Some? && em.Some? && tm.value.0 == em.value.0 && tm.value.2 == em.value.2 then
      DirectNext(probe, BuildMux(probe, select, tm.value.1, em.value.1, 0), AsThen(tm.value.0, tm.value.2), w,
                 OneKey(probe, select, tm.value.1, em.value.1))
    else true
  }

  /** After a first call that is present the second one is checked; otherwise `missing` decides. */
  predicate DirectNext(probe: Store, first: Step, position: Position, w: nat, missing: bool)
    requires probe.mode.Probing? && Ready(probe, first, position, w)
    decreases w, 0
  {
    hide Inv, Size;
    if first.answer.Err? then missing else
    var (s, t, e) := position.Place(first.answer.lit);
    DirectMux(probe, s, t, e)
  }

  // ----- single lookups -----

  /** At most one gate of the given kind is appended, and then it is the answer. */
  predicate Appends(store: Store, step: Step, kind: NodeKind) {
    step.answer.Ok? && step.store != store ==>
      && step.answer.lit.node == |store.rows| && |step.store.rows| == |store.rows| + 1
      && step.store.rows[|store.rows|].kind == kind
  }

  lemma AppendsResolve(store: Store, key: Key, origin: nat)
    requires Inv(store) && LegalKey(store, key)
    ensures Settles(store, Resolve(store, key, origin))
    ensures Appends(store, Resolve(store, key, origin), RowFor(store.rows, key, origin).kind)
    ensures var step := Resolve(store, key, origin);
            step.answer.Ok? ==>
              && !step.answer.lit.inverted
              && (step.store != store ==> step.store.rows == store.rows + [RowFor(store.rows, key, origin)])
  {
    hide Inv, Size;
  }

  lemma AppendsAnd(store: Store, left: Lit, right: Lit, origin: nat)
    requires Inv(store) && Legal(store, left) && Legal(store, right)
    ensures Appends(store, BuildAnd(store, left, right, origin), And)
  {
    hide Inv, Size, Resolve, BinaryFanins;
    if BuildAnd(store, left, right, origin).store != store {
      var (l, r) := Ordered(left, right);
      AppendsResolve(store, AndKey(l, r), origin);
    }
  }

  lemma {:induction false} AppendsXor(store: Store, left: Lit, right: Lit, origin: nat)
    requires Inv(store) && Legal(store, left) && Legal(store, right)
    ensures Appends(store, BuildXor(store, left, right, origin), Xor)
    decreases Weight(store, left) + Weight(store, right)
  {
    hide Inv, Size, Resolve, ParityOf;
    if left.IsConstant() || right.IsConstant() || left.node == right.node {
    } else {
      var l, r := left.Positive(), right.Positive();
      ParityWeight(store, l, r);
      match ParityOf(store.rows, l, r)
      case Cancelled(_) =>
      case Shared(l', r') => AppendsXor(store, l', r', origin);
      case Unrelated =>
        var (l', r') := Ordered(l, r);
        AppendsResolve(store, XorKey(l', r'), origin);
    }
  }

  /** A missing multiplexer with one key appends that gate only. */
  lemma AppendsOneKey(store: Store, s: Lit, t: Lit, e: Lit, origin: nat)
    requires Inv(store) && Legal(store, s) && Legal(store, t) && Legal(store, e)
    requires !s.inverted && !s.IsConstant() && t != e && !t.IsConstant() && !e.IsConstant() && OneKey(store, s, t, e)
    ensures var step := BuildMux(store, s, t, e, origin);
            Settles(store, step)
            && (step.answer.Ok? && step.store != store ==>
                  && step.answer.lit.node == |store.rows| && |step.store.rows| == |store.rows| + 1
                  && (step.store.rows[|store.rows|].kind.Mux? ==>
                        && step.answer.lit.inverted == (t.inverted && e.inverted)
                        && (step.answer.lit.inverted || MuxFanins(step.store.rows, step.answer.lit)
                            == Some((s, t, e)))))
  {
    hide Inv, Size, MuxReduce, Irreducible;
    if t.inverted && e.inverted {
      AppendsNormal(store, s, t.Positive(), e.Positive(), origin);
    } else {
      AppendsNormal(store, s, t, e, origin);
    }
  }

  lemma AppendsNormal(store: Store, s: Lit, t: Lit, e: Lit, origin: nat)
    requires Inv(store) && Legal(store, s) && Legal(store, t) && Legal(store, e)
    requires Normal(s, t, e) && !t.IsConstant() && !e.IsConstant() && OneKeyNormal(store, s, t, e)
    ensures var step := MuxReduce(store, s, t, e, origin);
            Settles(store, step)
            && (step.answer.Ok? && step.store != store ==>
                  && step.answer.lit.node == |store.rows| && |step.store.rows| == |store.rows| + 1
                  && (step.store.rows[|store.rows|].kind.Mux? ==>
                        !step.answer.lit.inverted && MuxFanins(step.store.rows, step.answer.lit) == Some((s, t, e))))
  {
    hide Inv, Size, BuildAnd, BuildXor, BuildMux, MuxCollapse, Resolve, Irreducible;
    if t == e.Not() {
      AppendsXor(store, s, e, origin);
    } else if t == s {
      AppendsAnd(store, s.Not(), e.Not(), origin);
    } else if t == s.Not() {
      AppendsAnd(store, s.Not(), e, origin);
    } else if e == s {
      AppendsAnd(store, s, t, origin);
    } else if e == s.Not() {
      AppendsAnd(store, s, t.Not(), origin);
    } else {
      IrreducibleMux(store, s, t, e, origin);
      StraightMux(store, s, t, e, origin);
      AppendsResolve(store, MuxKey(s, t, e), origin);
    }
  }

  lemma StraightMux(store: Store, s: Lit, t: Lit, e: Lit, origin: nat)
    requires Inv(store) && Legal(store, s) && Legal(store, t) && Legal(store, e) && CanonicalMux(s, t, e)
    ensures BuildMux(store, s, t, e, origin) == MuxReduce(store, s, t, e, origin)
  {
    hide Inv, Size, MuxReduce;
  }

  // ----- new operands stay visible -----

  /** A node whose key mentions a literal of node `n` or later is itself later. */
  lemma NewKey(store: Store, s: Lit, t: Lit, e: Lit, origin: nat, n: nat)
    requires Inv(store) && Legal(store, s) && Legal(store, t) && Legal(store, e) && store.mode.Building?
    requires CanonicalMux(s, t, e) && Irreducible(store.rows, s, t, e)
    requires s.node >= n || t.node >= n || e.node >= n
    ensures var step := BuildMux(store, s, t, e, origin); step.answer.Ok? ==> step.answer.lit.node >= n
  {
    hide Size, Irreducible, Levelled, Interned;
    IrreducibleMux(store, s, t, e, origin);
    var key := MuxKey(s, t, e);
    if key in store.index {
      assert Indexed(store.rows, key, store.index[key]);
      assert GoodRow(store.rows[store.index[key]], store.index[key]);
    }
  }

  /** What a stored multiplexer is known to satisfy, also in any larger store. */
  lemma StoredMux(builder: Store, grown: Store, l: Lit)
    requires Inv(builder) && Reduced(builder.rows) && Extends(builder, grown) && MuxFanins(builder.rows, l).Some?
    ensures MuxFanins(grown.rows, l) == MuxFanins(builder.rows, l)
    ensures var (s, t, e) := MuxFanins(builder.rows, l).value;
            && CanonicalMux(s, t, e) && Irreducible(grown.rows, s, t, e)
            && s.node < l.node && t.node < l.node && e.node < l.node && l.node < |builder.rows|
            && MuxFanins(grown.rows, t) == MuxFanins(builder.rows, t)
            && MuxFanins(grown.rows, e) == MuxFanins(builder.rows, e)
  {
    hide Irreducible, Levelled, Interned;
    var (s, t, e) := MuxFanins(builder.rows, l).value;
    assert GoodRow(builder.rows[l.node], l.node) && ReducedRow(builder.rows, l.node);
    IrreducibleKept(builder.rows, grown.rows, s, t, e);
    SameFanins(builder.rows, grown.rows, l);
    SameFanins(builder.rows, grown.rows, t);
    SameFanins(builder.rows, grown.rows, e);
  }

  lemma ArmsBelow(store: Store, l: Lit)
    requires Inv(store) && MuxFanins(store.rows, l).Some?
    ensures var (s, t, e) := MuxFanins(store.rows, l).value; s.node < l.node && t.node < l.node && e.node < l.node
  {
    assert GoodRow(store.rows[l.node], l.node);
  }

  /** The arms of a stored multiplexer under a new select make a new node. */
  lemma FreshSelect(builder: Store, grown: Store, l: Lit, c: Lit, origin: nat)
    requires builder.mode.Building? && Inv(builder) && Reduced(builder.rows) && Extends(builder, grown) && Inv(grown)
    requires MuxFanins(builder.rows, l).Some? && Legal(grown, c) && c.node >= |builder.rows|
    requires var (_, t, e) := MuxFanins(builder.rows, l).value; Legal(grown, t) && Legal(grown, e)
    ensures var (_, t, e) := MuxFanins(builder.rows, l).value;
            var step := BuildMux(grown, c, t, e, origin);
            step.answer.Ok? ==> step.answer.lit.node >= |builder.rows|
  {
    hide Inv, Size, Reduced, BuildMux;
    StoredMux(builder, grown, l);
    var (_, t, e) := MuxFanins(builder.rows, l).value;
    if MuxFanins(builder.rows, t).Some? { ArmsBelow(builder, t); }
    if MuxFanins(builder.rows, e).Some? { ArmsBelow(builder, e); }
    if c.inverted {
      MuxNegatedSelect(grown, c, t, e, origin);
      NewKey(grown, c.Not(), e, t, origin, |builder.rows|);
    } else {
      NewKey(grown, c, t, e, origin, |builder.rows|);
    }
  }

  /** Which arm of the outer multiplexer the new literal takes. */
  function Arms(asElse: bool, shared: Lit, other: Lit): (Lit, Lit) {
    if asElse then (shared, other) else (other, shared)
  }

  /** One outer multiplexer of a factored pair, with its shared and its own arm. */
  predicate Outer(rows: seq<Row>, l: Lit, i: Lit, asElse: bool, shared: Lit, own: Lit) {
    MuxFanins(rows, l) == Some((i, Arms(asElse, shared, own).0, Arms(asElse, shared, own).1))
  }

  /** Factoring around a new inner literal makes a new node, when the inner one took a single key. */
  lemma FreshArm(builder: Store, grown: Store, lt: Lit, le: Lit, s: Lit, i: Lit, shared: Lit, x: Lit, y: Lit, r: Lit,
                 asElse: bool, origin: nat)
    requires builder.mode.Building? && Inv(builder) && Reduced(builder.rows) && Extends(builder, grown) && Inv(grown)
    requires Outer(builder.rows, lt, i, asElse, shared, x) && Outer(builder.rows, le, i, asElse, shared, y) && i != s
    requires Legal(grown, i) && Legal(grown, shared) && Legal(grown, r)
    requires r.node == |builder.rows| < |grown.rows|
    requires grown.rows[r.node].kind.Mux? ==>
               r.inverted == (x.inverted && y.inverted) && (r.inverted || MuxFanins(grown.rows, r) == Some((s, x, y)))
    ensures var (t, e) := Arms(asElse, shared, r);
            var step := BuildMux(grown, i, t, e, origin);
            step.answer.Ok? ==> step.answer.lit.node >= |builder.rows|
  {
    hide Inv, Size, Reduced, BuildMux;
    StoredMux(builder, grown, lt);
    StoredMux(builder, grown, le);
    if MuxFanins(builder.rows, shared).Some? { ArmsBelow(builder, shared); }
    if shared.inverted && r.inverted {
      FreshInverted(builder, grown, lt, i, shared, x, r, asElse, origin);
    } else {
      var (t, e) := Arms(asElse, shared, r);
      NewKey(grown, i, t, e, origin, |builder.rows|);
    }
  }

  /** The same when the shared arm and the new literal both carry a phase. */
  lemma FreshInverted(builder: Store, grown: Store, lt: Lit, i: Lit, shared: Lit, x: Lit, r: Lit, asElse: bool,
                      origin: nat)
    requires builder.mode.Building? && Inv(builder) && Reduced(builder.rows) && Extends(builder, grown) && Inv(grown)
    requires Outer(builder.rows, lt, i, asElse, shared, x)
    requires Legal(grown, i) && Legal(grown, shared) && Legal(grown, r) && shared.inverted && r.inverted
    requires r.node == |builder.rows| < |grown.rows| && !grown.rows[r.node].kind.Mux?
    ensures var (t, e) := Arms(asElse, shared, r);
            var step := BuildMux(grown, i, t, e, origin);
            step.answer.Ok? ==> step.answer.lit.node >= |builder.rows|
  {
    hide Inv, Size, Reduced, BuildMux;
    StoredMux(builder, grown, lt);
    var (t, e) := Arms(asElse, shared.Not(), r.Not());
    MuxNegatedArms(grown, i, t, e, origin);
    FreshBeside(builder, grown, i, shared.Not(), r.Not(), asElse, origin);
  }

  /** A new gate that is no multiplexer, beside a positive literal: only that literal can collapse. */
  lemma FreshBeside(builder: Store, grown: Store, i: Lit, m: Lit, r: Lit, asElse: bool, origin: nat)
    requires builder.mode.Building? && Inv(builder) && Reduced(builder.rows) && Extends(builder, grown) && Inv(grown)
    requires Legal(grown, i) && Legal(grown, m) && Legal(grown, r) && !m.inverted && !r.inverted
    requires !i.inverted && !i.IsConstant() && !m.IsConstant() && m.node != i.node && i.node < |builder.rows|
    requires m.node < |builder.rows|
    requires r.node == |builder.rows| < |grown.rows| && !grown.rows[r.node].kind.Mux?
    ensures var (t, e) := Arms(asElse, m, r);
            var step := BuildMux(grown, i, t, e, origin);
            step.answer.Ok? ==> step.answer.lit.node >= |builder.rows|
  {
    hide Inv, Size, Reduced, BuildMux;
    var (t, e) := Arms(asElse, m, r);
    SameFanins(builder.rows, grown.rows, m);
    if MuxFanins(builder.rows, m).Some? && MuxFanins(builder.rows, m).value.0 == i {
      StoredMux(builder, grown, m);
      CollapsesTo(grown, i, t, e, origin);
      var (_, u, v) := MuxFanins(builder.rows, m).value;
      FreshBetween(builder, grown, i, if asElse then u else v, r, asElse, origin);
    } else {
      FreshBetween(builder, grown, i, m, r, asElse, origin);
    }
  }

  lemma FreshBetween(builder: Store, grown: Store, i: Lit, m: Lit, r: Lit, asElse: bool, origin: nat)
    requires builder.mode.Building? && Inv(builder) && Extends(builder, grown) && Inv(grown)
    requires Legal(grown, i) && Legal(grown, m) && Legal(grown, r) && !r.inverted
    requires !i.inverted && !i.IsConstant() && !m.IsConstant() && m.node != i.node && i.node < |builder.rows|
    requires m.node < |builder.rows|
    requires MuxFanins(builder.rows, m).Some? ==> MuxFanins(builder.rows, m).value.0 != i
    requires r.node == |builder.rows| < |grown.rows| && !grown.rows[r.node].kind.Mux?
    ensures var (t, e) := Arms(asElse, m, r);
            var step := BuildMux(grown, i, t, e, origin);
            step.answer.Ok? ==> step.answer.lit.node >= |builder.rows|
  {
    hide Inv, Size, BuildMux;
    var (t, e) := Arms(asElse, m, r);
    SameFanins(builder.rows, grown.rows, m);
    if MuxFanins(builder.rows, m).Some? { ArmsBelow(builder, m); }
    NewKey(grown, i, t, e, origin, |builder.rows|);
  }

  /** A nested multiplexer under the same select is replaced by its arm. */
  lemma CollapsesTo(store: Store, s: Lit, t: Lit, e: Lit, origin: nat)
    requires Inv(store) && Legal(store, s) && Legal(store, t) && Legal(store, e)
    requires CanonicalMux(s, t, e) && Collapsed(store, s, t, e) != (t, e)
    ensures var (t', e') := Collapsed(store, s, t, e);
            Legal(store, t') && Legal(store, e')
                && BuildMux(store, s, t, e, origin) == BuildMux(store, s, t', e', origin)
  {
    hide Inv, Size;
    CollapsedWeight(store, s, t, e);
    assert BuildMux(store, s, t, e, origin) == MuxReduce(store, s, t, e, origin);
    assert MuxReduce(store, s, t, e, origin) == MuxCollapse(store, s, t, e, origin);
  }

  // ----- guarded operations settle -----

  lemma {:induction false} SettleOr(builder: Store, probe: Store, left: Lit, right: Lit, origin: nat)
    requires Views(builder, probe) && Legal(builder, left) && Legal(builder, right) && DirectOr(probe, left, right)
    ensures Settles(builder, BuildOr(builder, left, right, origin))
    decreases Weight(builder, left) + Weight(builder, right), 0
  {
    hide Inv, Size, Reduced, BuildMux, BuildAnd, IsIndexOf, DirectMux;
    match OrFactor(builder, left, right)
    case Some((s, t, e)) =>
      OrFactorWeight(builder, left, right);
      SettleMux(builder, probe, s, t, e, origin);
    case None =>
      AppendsAnd(builder, left.Not(), right.Not(), origin);
  }

  lemma {:induction false} SettleMux(builder: Store, probe: Store, select: Lit, whenTrue: Lit, whenFalse: Lit,
                                     origin: nat)
    requires Views(builder, probe) && Legal(builder, select) && Legal(builder, whenTrue) && Legal(builder, whenFalse)
    requires DirectMux(probe, select, whenTrue, whenFalse)
    ensures Settles(builder, BuildMux(builder, select, whenTrue, whenFalse, origin))
    decreases Weight(builder, select) + Weight(builder, whenTrue) + Weight(builder, whenFalse), 5
  {
    hide Inv, Size, Reduced, MuxReduce, IsIndexOf, DirectReduce;
    if select.IsConstant() || whenTrue == whenFalse || (whenTrue.IsConstant() && whenFalse.IsConstant()) {
    } else {
      var (t, e) := if select.inverted then (whenFalse, whenTrue) else (whenTrue, whenFalse);
      if t.inverted && e.inverted {
        SettleReduce(builder, probe, select.Positive(), t.Positive(), e.Positive(), origin);
      } else {
        SettleReduce(builder, probe, select.Positive(), t, e, origin);
      }
    }
  }

  lemma {:induction false} SettleReduce(builder: Store, probe: Store, select: Lit, t: Lit, e: Lit, origin: nat)
    requires Views(builder, probe) && Legal(builder, select) && Legal(builder, t) && Legal(builder, e)
    requires Normal(select, t, e) && DirectReduce(probe, select, t, e)
    ensures Settles(builder, MuxReduce(builder, select, t, e, origin))
    decreases Weight(builder, select) + Weight(builder, t) + Weight(builder, e), 4
  {
    hide Inv, Size, Reduced, BuildAnd, BuildOr, BuildXor, MuxCollapse, IsIndexOf, DirectOr, DirectCollapse;
    if t == e.Not() {
      AppendsXor(builder, select, e, origin);
    } else if t == TRUE || t == select {
      SettleOr(builder, probe, select, e, origin);
    } else if t == FALSE || t == select.Not() {
      AppendsAnd(builder, select.Not(), e, origin);
    } else if e == FALSE || e == select {
      AppendsAnd(builder, select, t, origin);
    } else if e == TRUE || e == select.Not() {
      SettleOr(builder, probe, select.Not(), t, origin);
    } else {
      SettleCollapse(builder, probe, select, t, e, origin);
    }
  }

  lemma {:induction false} SettleCollapse(builder: Store, probe: Store, select: Lit, t: Lit, e: Lit, origin: nat)
    requires Views(builder, probe) && Legal(builder, select) && Legal(builder, t) && Legal(builder, e)
    requires CanonicalMux(select, t, e) && DirectCollapse(probe, select, t, e)
    ensures Settles(builder, MuxCollapse(builder, select, t, e, origin))
    decreases Weight(builder, select) + Weight(builder, t) + Weight(builder, e), 3
  {
    hide Inv, Size, Reduced, BuildMux, MuxFactor, IsIndexOf, DirectMux, DirectFactor;
    CollapsedWeight(builder, select, t, e);
    var (t', e') := Collapsed(builder, select, t, e);
    if t' != t || e' != e {
      SettleMux(builder, probe, select, t', e', origin);
    } else {
      SettleFactor(builder, probe, select, t, e, origin);
    }
  }

  lemma {:induction false} SettleFactor(builder: Store, probe: Store, select: Lit, t: Lit, e: Lit, origin: nat)
    requires Views(builder, probe) && Legal(builder, select) && Legal(builder, t) && Legal(builder, e)
    requires CanonicalMux(select, t, e) && Uncollapsed(builder.rows, select, t, e) && DirectFactor(probe, select, t, e)
    ensures Settles(builder, MuxFactor(builder, select, t, e, origin))
    decreases Weight(builder, select) + Weight(builder, t) + Weight(builder, e), 2
  {
    hide Inv, Size, Reduced, BuildAnd, BuildOr, Continue, MuxShare, IsIndexOf, DirectOr, DirectShare, DirectNext,
        Extends, MuxFanins;
    MuxArmsWeight(builder, t, e);
    MuxArmsWeight(probe, t, e);
    var tm, em := MuxFanins(builder.rows, t), MuxFanins(builder.rows, e);
    var w := Weight(builder, select) + Weight(builder, t) + Weight(builder, e);
    if tm.Some? && e == tm.value.2 {
      AndFirst(builder, probe, select, tm.value.0, origin);
      SettleSelect(builder, probe, t, BuildAnd(builder, select, tm.value.0, origin),
          BuildAnd(probe, select, tm.value.0, 0), origin, w, true);
    } else if tm.Some? && e == tm.value.1 {
      var missing := DirectOr(probe, select.Not(), tm.value.0);
      OrFirst(builder, probe, select.Not(), tm.value.0, origin);
      if missing { SettleOr(builder, probe, select.Not(), tm.value.0, origin); }
      SettleSelect(builder, probe, t, BuildOr(builder, select.Not(), tm.value.0, origin),
          BuildOr(probe, select.Not(), tm.value.0, 0), origin, w, missing);
    } else if em.Some? && t == em.value.1 {
      var missing := DirectOr(probe, select, em.value.0);
      OrFirst(builder, probe, select, em.value.0, origin);
      if missing { SettleOr(builder, probe, select, em.value.0, origin); }
      SettleSelect(builder, probe, e, BuildOr(builder, select, em.value.0, origin),
          BuildOr(probe, select, em.value.0, 0), origin, w, missing);
    } else if em.Some? && t == em.value.2 {
      AndFirst(builder, probe, select.Not(), em.value.0, origin);
      SettleSelect(builder, probe, e, BuildAnd(builder, select.Not(), em.value.0, origin),
          BuildAnd(probe, select.Not(), em.value.0, 0), origin, w, true);
    } else {
      SettleShare(builder, probe, select, t, e, origin);
    }
  }

  /** The probe finds a first call exactly when the builder makes it for free. */
  predicate Agrees(builder: Store, first: Step, found: Step) {
    found.answer.Ok? <==> first.answer.Ok? && first.store == builder && found.answer == first.answer
  }

  lemma AndFirst(builder: Store, probe: Store, left: Lit, right: Lit, origin: nat)
    requires Views(builder, probe) && Legal(builder, left) && Legal(builder, right)
    ensures Agrees(builder, BuildAnd(builder, left, right, origin), BuildAnd(probe, left, right, 0))
    ensures Settles(builder, BuildAnd(builder, left, right, origin))
    ensures var first := BuildAnd(builder, left, right, origin);
            first.answer.Ok? && first.store == builder ==> BuildAnd(probe, left, right, 0).answer == first.answer
  {
    hide Inv, Size, Reduced, BuildAnd, IsIndexOf;
    AppendsAnd(builder, left, right, origin);
    var first, found := BuildAnd(builder, left, right, origin), BuildAnd(probe, left, right, 0);
    if first.answer.Ok? { ProbeAnd(builder, probe.index, left, right, origin, first.answer.lit); }
    if found.answer.Ok? { ProbeAnd(builder, probe.index, left, right, origin, found.answer.lit); }
  }

  lemma OrFirst(builder: Store, probe: Store, left: Lit, right: Lit, origin: nat)
    requires Views(builder, probe) && Legal(builder, left) && Legal(builder, right)
    ensures Agrees(builder, BuildOr(builder, left, right, origin), BuildOr(probe, left, right, 0))
    ensures var first := BuildOr(builder, left, right, origin);
            first.answer.Ok? && first.store == builder ==> BuildOr(probe, left, right, 0).answer == first.answer
  {
    hide Inv, Size, Reduced, BuildOr, IsIndexOf;
    var first, found := BuildOr(builder, left, right, origin), BuildOr(probe, left, right, 0);
    if first.answer.Ok? { ProbeOr(builder, probe.index, left, right, origin, first.answer.lit); }
    if found.answer.Ok? { ProbeOr(builder, probe.index, left, right, origin, found.answer.lit); }
  }

  lemma MuxFirst(builder: Store, probe: Store, s: Lit, t: Lit, e: Lit, origin: nat)
    requires Views(builder, probe) && Legal(builder, s) && Legal(builder, t) && Legal(builder, e)
    ensures Agrees(builder, BuildMux(builder, s, t, e, origin), BuildMux(probe, s, t, e, 0))
    ensures var first := BuildMux(builder, s, t, e, origin);
            first.answer.Ok? && first.store == builder ==> BuildMux(probe, s, t, e, 0).answer == first.answer
  {
    hide Inv, Size, Reduced, BuildMux, IsIndexOf;
    var first, found := BuildMux(builder, s, t, e, origin), BuildMux(probe, s, t, e, 0);
    if first.answer.Ok? { ProbeMux(builder, probe.index, s, t, e, origin, first.answer.lit); }
    if found.answer.Ok? { ProbeMux(builder, probe.index, s, t, e, origin, found.answer.lit); }
  }

  /** The second call after a combined select, which is either found or new. */
  lemma {:induction false} SettleSelect(builder: Store, probe: Store, l: Lit, first: Step, found: Step, origin: nat,
                                        w: nat, missing: bool)
    requires Views(builder, probe) && MuxFanins(builder.rows, l).Some?
    requires var (_, t, e) := MuxFanins(builder.rows, l).value;
             && Ready(builder, first, AsSelect(t, e), w) && Ready(probe, found, AsSelect(t, e), w)
             && DirectNext(probe, found, AsSelect(t, e), w, missing)
    requires Agrees(builder, first, found)
    requires (first.answer.Ok? && first.store == builder ==> found.answer == first.answer)
    requires missing ==> Settles(builder, first)
    ensures var (_, t, e) := MuxFanins(builder.rows, l).value;
            Settles(builder, Continue(builder, first, AsSelect(t, e), origin, w))
    decreases w, 0
  {
    hide Inv, Size, Reduced, BuildMux, IsIndexOf, DirectMux;
    var (_, t, e) := MuxFanins(builder.rows, l).value;
    if first.answer.Ok? {
      WeightKept(builder, first.store, t);
      WeightKept(builder, first.store, e);
      if first.store == builder {
        SettleMux(builder, probe, first.answer.lit, t, e, origin);
      } else {
        FreshSelect(builder, first.store, l, first.answer.lit, origin);
      }
    }
  }

  lemma {:induction false} SettleShare(builder: Store, probe: Store, select: Lit, t: Lit, e: Lit, origin: nat)
    requires Views(builder, probe) && Legal(builder, select) && Legal(builder, t) && Legal(builder, e)
    requires CanonicalMux(select, t, e) && Uncollapsed(builder.rows, select, t, e) && DirectShare(probe, select, t, e)
    ensures Settles(builder, MuxShare(builder, select, t, e, origin))
    decreases Weight(builder, select) + Weight(builder, t) + Weight(builder, e), 1
  {
    hide Inv, Size, Reduced, BuildMux, Continue, Resolve, IsIndexOf, DirectNext, OneKey, Extends, MuxFanins;
    MuxArmsWeight(builder, t, e);
    MuxArmsWeight(probe, t, e);
    var tm, em := MuxFanins(builder.rows, t), MuxFanins(builder.rows, e);
    var w := Weight(builder, select) + Weight(builder, t) + Weight(builder, e);
    if tm.Some? && em.Some? && tm.value.0 == em.value.0 && tm.value.1 == em.value.1 {
      MuxFirst(builder, probe, select, tm.value.2, em.value.2, origin);
      SettlePair(builder, probe, select, t, e, tm.value.0, tm.value.1, tm.value.2, em.value.2, true, origin, w);
    } else if tm.Some? && em.Some? && tm.value.0 == em.value.0 && tm.value.2 == em.value.2 {
      MuxFirst(builder, probe, select, tm.value.1, em.value.1, origin);
      SettlePair(builder, probe, select, t, e, tm.value.0, tm.value.2, tm.value.1, em.value.1, false, origin, w);
    } else {
      AppendsResolve(builder, MuxKey(select, t, e), origin);
    }
  }

  function Place(asElse: bool, i: Lit, shared: Lit): Position {
    if asElse then AsElse(i, shared) else AsThen(i, shared)
  }

  /** The second call of a factored pair: its inner multiplexer is found, or new with a single key. */
  lemma {:induction false} SettlePair(builder: Store, probe: Store, s: Lit, lt: Lit, le: Lit, i: Lit, shared: Lit,
                                      x: Lit, y: Lit, asElse: bool, origin: nat, w: nat)
    requires Views(builder, probe) && Legal(builder, s) && Legal(builder, x) && Legal(builder, y)
    requires !s.inverted && !s.IsConstant() && i != s && lt != le
    requires Outer(builder.rows, lt, i, asElse, shared, x) && Outer(builder.rows, le, i, asElse, shared, y)
    requires Ready(builder, BuildMux(builder, s, x, y, origin), Place(asElse, i, shared), w)
    requires Ready(probe, BuildMux(probe, s, x, y, 0), Place(asElse, i, shared), w)
    requires Agrees(builder, BuildMux(builder, s, x, y, origin), BuildMux(probe, s, x, y, 0))
    requires var first := BuildMux(builder, s, x, y, origin);
             first.answer.Ok? && first.store == builder ==> BuildMux(probe, s, x, y, 0).answer == first.answer
    requires DirectNext(probe, BuildMux(probe, s, x, y, 0), Place(asElse, i, shared), w, OneKey(probe, s, x, y))
    ensures Settles(builder, Continue(builder, BuildMux(builder, s, x, y, origin), Place(asElse, i, shared), origin, w))
    decreases w, 0
  {
    hide Inv, Size, Reduced, BuildMux, IsIndexOf, DirectMux, OneKeyNormal;
    var first := BuildMux(builder, s, x, y, origin);
    if first.answer.Ok? {
      WeightKept(builder, first.store, i);
      WeightKept(builder, first.store, shared);
      var (a, b, c) := Place(asElse, i, shared).Place(first.answer.lit);
      if first.store == builder {
        SettleMux(builder, probe, a, b, c, origin);
      } else {
        StoredMux(builder, builder, lt);
        StoredMux(builder, builder, le);
        SameKey(builder, probe, s, x, y);
        if x == y { SameArms(builder, s, x, origin); }
        AppendsOneKey(builder, s, x, y, origin);
        FreshArm(builder, first.store, lt, le, s, i, shared, x, y, first.answer.lit, asElse, origin);
      }
    }
  }

  lemma SameKey(builder: Store, probe: Store, s: Lit, t: Lit, e: Lit)
    requires builder.rows == probe.rows
    ensures OneKey(builder, s, t, e) == OneKey(probe, s, t, e)
  {
  }

  lemma SameArms(store: Store, s: Lit, t: Lit, origin: nat)
    requires Inv(store) && Legal(store, s) && Legal(store, t) && !s.IsConstant()
    ensures BuildMux(store, s, t, t, origin) == Step(store, Ok(t))
  {
  }

  // ----- the theorems -----

  /** A conjunction is reported absent exactly when its node would be new. */
  lemma AbsentAnd(builder: Store, probe: Store, left: Lit, right: Lit, origin: nat)
    requires Views(builder, probe) && Legal(builder, left) && Legal(builder, right)
    ensures var step := BuildAnd(builder, left, right, origin);
            step.answer.Ok? ==> (BuildAnd(probe, left, right, 0).answer.Err? <==>
                step.answer.lit.node >= |builder.rows|)
  {
    hide Inv, Size, Reduced, BuildAnd, IsIndexOf;
    AndFirst(builder, probe, left, right, origin);
  }

  /** An exclusive-or is reported absent exactly when its node would be new. */
  lemma AbsentXor(builder: Store, probe: Store, left: Lit, right: Lit, origin: nat)
    requires Views(builder, probe) && Legal(builder, left) && Legal(builder, right)
    ensures var step := BuildXor(builder, left, right, origin);
            step.answer.Ok? ==> (BuildXor(probe, left, right, 0).answer.Err? <==>
                step.answer.lit.node >= |builder.rows|)
  {
    hide Inv, Size, Reduced, BuildXor, IsIndexOf;
    AppendsXor(builder, left, right, origin);
    var step, found := BuildXor(builder, left, right, origin), BuildXor(probe, left, right, 0);
    if step.answer.Ok? { ProbeXor(builder, probe.index, left, right, origin, step.answer.lit); }
    if found.answer.Ok? { ProbeXor(builder, probe.index, left, right, origin, found.answer.lit); }
  }

  /** A disjunction is reported absent exactly when its node would be new, if the
      multiplexer it may hide is direct. */
  lemma AbsentOr(builder: Store, probe: Store, left: Lit, right: Lit, origin: nat)
    requires Views(builder, probe) && Legal(builder, left) && Legal(builder, right) && DirectOr(probe, left, right)
    ensures var step := BuildOr(builder, left, right, origin);
            step.answer.Ok? ==> (BuildOr(probe, left, right, 0).answer.Err? <==> step.answer.lit.node >= |builder.rows|)
  {
    hide Inv, Size, Reduced, BuildOr, IsIndexOf, DirectOr;
    SettleOr(builder, probe, left, right, origin);
    OrFirst(builder, probe, left, right, origin);
  }

  /** A direct multiplexer is reported absent exactly when its node would be new. */
  lemma AbsentMux(builder: Store, probe: Store, s: Lit, t: Lit, e: Lit, origin: nat)
    requires Views(builder, probe) && Legal(builder, s) && Legal(builder, t) && Legal(builder, e)
    requires DirectMux(probe, s, t, e)
    ensures var step := BuildMux(builder, s, t, e, origin);
            step.answer.Ok? ==> (BuildMux(probe, s, t, e, 0).answer.Err? <==> step.answer.lit.node >= |builder.rows|)
  {
    hide Inv, Size, Reduced, BuildMux, IsIndexOf, DirectMux;
    SettleMux(builder, probe, s, t, e, origin);
    MuxFirst(builder, probe, s, t, e, origin);
  }
}
