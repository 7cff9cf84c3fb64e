/** Every canonicalisation rule preserves meaning: the literal an operation
    returns has, under every environment, the Boolean value of the operation. */
module CanonicalMeaning {
  import opened Lists
  import opened LogicNetwork
  import opened Canonical

  /** Nodes keep their value when a store grows. */
  lemma ValueKept(store: Store, store': Store, env: Env, l: Lit)
    requires Extends(store, store') && Legal(store, l)
    ensures LitValue(store'.rows, env, l) == LitValue(store.rows, env, l)
  {
    if l.node < |store.rows| { ValuePrefix(store.rows, store'.rows, env, l.node); }
  }

  function KeyValue(rows: seq<Row>, env: Env, key: Key): bool {
    match key
    case AndKey(l, r) => LitValue(rows, env, l) && LitValue(rows, env, r)
    case XorKey(l, r) => LitValue(rows, env, l) != LitValue(rows, env, r)
    case MuxKey(s, t, e) => if LitValue(rows, env, s) then LitValue(rows, env, t) else LitValue(rows, env, e)
  }

  lemma GateValue(store: Store, env: Env, n: nat)
    requires Inv(store) && n < |store.rows| && KeyOf(store.rows[n]).Some?
    ensures Value(store.rows, env, n) == KeyValue(store.rows, env, KeyOf(store.rows[n]).value)
  {
    assert GoodRow(store.rows[n], n);
  }

  lemma ResolveMeaning(store: Store, key: Key, origin: nat, env: Env)
    requires Inv(store) && LegalKey(store, key)
    ensures var step := Resolve(store, key, origin);
            step.answer.Ok? ==> LitValue(step.store.rows, env, step.answer.lit) == KeyValue(store.rows, env, key)
  {
    hide Value, Size;
    var step := Resolve(store, key, origin);
    if step.answer.Ok? {
      ResolvedKey(store, key, origin);
      hide Inv, Resolve;
      KeyedValue(step.store, key, env, step.answer.lit);
      match key
      case AndKey(l, r) => ValueKept(store, step.store, env, l); ValueKept(store, step.store, env, r);
      case XorKey(l, r) => ValueKept(store, step.store, env, l); ValueKept(store, step.store, env, r);
      case MuxKey(s, t, e) =>
        ValueKept(store, step.store, env, s); ValueKept(store, step.store, env, t);
        ValueKept(store, step.store, env, e);
    }
  }

  /** A resolved literal is the positive literal of a row with that key. */
  lemma ResolvedKey(store: Store, key: Key, origin: nat)
    requires Inv(store) && LegalKey(store, key)
    ensures var step := Resolve(store, key, origin);
            step.answer.Ok? ==> !step.answer.lit.inverted && Indexed(step.store.rows, key, step.answer.lit.node)
  {
    hide Size, WellFormed, Levelled, Interned;
  }

  lemma KeyedValue(store: Store, key: Key, env: Env, l: Lit)
    requires Inv(store) && !l.inverted && Indexed(store.rows, key, l.node)
    ensures LitValue(store.rows, env, l) == KeyValue(store.rows, env, key)
  {
    GateValue(store, env, l.node);
  }

  /** The values of the fanins behind a literal that is a gate. */
  lemma BinaryValue(store: Store, env: Env, l: Lit, kind: NodeKind)
    requires Inv(store) && (kind.And? || kind.Xor?)
    ensures var f := BinaryFanins(store.rows, l, kind);
            f.Some? ==> LitValue(store.rows, env, l) ==
                        if kind.And? then LitValue(store.rows, env, f.value.0) && LitValue(store.rows, env, f.value.1)
                        else LitValue(store.rows, env, f.value.0) != LitValue(store.rows, env, f.value.1)
  {
    if BinaryFanins(store.rows, l, kind).Some? { GateValue(store, env, l.node); }
  }

  lemma MuxValue(store: Store, env: Env, l: Lit)
    requires Inv(store)
    ensures var f := MuxFanins(store.rows, l);
            f.Some? ==> LitValue(store.rows, env, l) ==
                        if LitValue(store.rows, env, f.value.0) then LitValue(store.rows, env, f.value.1)
                        else LitValue(store.rows, env, f.value.2)
  {
    if MuxFanins(store.rows, l).Some? { GateValue(store, env, l.node); }
  }

  lemma ConstantValue(store: Store, env: Env)
    requires Inv(store)
    ensures !LitValue(store.rows, env, FALSE) && LitValue(store.rows, env, TRUE)
  {
    assert GoodRow(store.rows[0], 0);
  }

  lemma AndMeaning(store: Store, left: Lit, right: Lit, origin: nat, env: Env)
    requires Inv(store) && Legal(store, left) && Legal(store, right)
    ensures var step := BuildAnd(store, left, right, origin);
            step.answer.Ok? ==> LitValue(step.store.rows, env, step.answer.lit) ==
                                (LitValue(store.rows, env, left) && LitValue(store.rows, env, right))
  {
    hide Value, Size, Inv;
    if left.IsConstant() || right.IsConstant() || left.node == right.node {
      ConstantValue(store, env);
    } else if HasFactor(BinaryFanins(store.rows, left, And), right) {
      BinaryValue(store, env, left, And);
    } else if HasFactor(BinaryFanins(store.rows, right, And), left) {
      BinaryValue(store, env, right, And);
    } else if right.inverted && HasFactor(BinaryFanins(store.rows, right.Positive(), And), left.Not()) {
      BinaryValue(store, env, right.Positive(), And);
    } else if left.inverted && HasFactor(BinaryFanins(store.rows, left.Positive(), And), right.Not()) {
      BinaryValue(store, env, left.Positive(), And);
    } else {
      var (l, r) := Ordered(left, right);
      ResolveMeaning(store, AndKey(l, r), origin, env);
    }
  }

  lemma {:induction false} OrMeaning(store: Store, left: Lit, right: Lit, origin: nat, env: Env)
    requires Inv(store) && Legal(store, left) && Legal(store, right)
    ensures var step := BuildOr(store, left, right, origin);
            step.answer.Ok? ==> LitValue(step.store.rows, env, step.answer.lit) ==
                                (LitValue(store.rows, env, left) || LitValue(store.rows, env, right))
    decreases Weight(store, left) + Weight(store, right), 0
  {
    hide Value, Size, Inv;
    match OrFactor(store, left, right)
    case Some((select, whenTrue, whenFalse)) =>
      OrFactorWeight(store, left, right);
      BinaryValue(store, env, left, And);
      BinaryValue(store, env, right, And);
      MuxMeaning(store, select, whenTrue, whenFalse, origin, env);
    case None =>
      AndMeaning(store, left.Not(), right.Not(), origin, env);
  }

  lemma {:induction false} XorMeaning(store: Store, left: Lit, right: Lit, origin: nat, env: Env)
    requires Inv(store) && Legal(store, left) && Legal(store, right)
    ensures var step := BuildXor(store, left, right, origin);
            step.answer.Ok? ==> LitValue(step.store.rows, env, step.answer.lit) ==
                                (LitValue(store.rows, env, left) != LitValue(store.rows, env, right))
    decreases Weight(store, left) + Weight(store, right)
  {
    hide Value, Size, Inv;
    ConstantValue(store, env);
    if left.IsConstant() || right.IsConstant() || left.node == right.node {
    } else {
      XorPositiveMeaning(store, left.Positive(), right.Positive(), origin, env);
    }
  }

  lemma {:induction false} XorPositiveMeaning(store: Store, left: Lit, right: Lit, origin: nat, env: Env)
    requires Inv(store) && Legal(store, left) && Legal(store, right)
    requires !left.inverted && !right.inverted && !left.IsConstant() && !right.IsConstant()
    requires left != right
    ensures var step := XorPositive(store, left, right, origin);
            step.answer.Ok? ==> LitValue(step.store.rows, env, step.answer.lit) ==
                                (LitValue(store.rows, env, left) != LitValue(store.rows, env, right))
    decreases Weight(store, left) + Weight(store, right), 0
  {
    hide Value, Size, Inv, ParityOf;
    ParityWeight(store, left, right);
    ParityMeaning(store, left, right, env);
    match ParityOf(store.rows, left, right)
    case Cancelled(_) =>
    case Shared(l, r) => XorMeaning(store, l, r, origin, env);
    case Unrelated =>
      var (l, r) := Ordered(left, right);
      ResolveMeaning(store, XorKey(l, r), origin, env);
  }

  lemma ParityMeaning(store: Store, left: Lit, right: Lit, env: Env)
    requires Inv(store)
    ensures var parity := LitValue(store.rows, env, left) != LitValue(store.rows, env, right);
            match ParityOf(store.rows, left, right)
            case Cancelled(l) => LitValue(store.rows, env, l) == parity
            case Shared(l, r) => (LitValue(store.rows, env, l) != LitValue(store.rows, env, r)) == parity
            case Unrelated => true
  {
    hide Value, Inv;
    BinaryValue(store, env, left, Xor);
    BinaryValue(store, env, right, Xor);
  }

  ghost predicate Chooses(store: Store, step: Step, select: Lit, t: Lit, e: Lit, env: Env) {
    step.answer.Ok? ==>
      LitValue(step.store.rows, env, step.answer.lit) ==
      if LitValue(store.rows, env, select) then LitValue(store.rows, env, t) else LitValue(store.rows, env, e)
  }

  lemma {:induction false} MuxMeaning(store: Store, select: Lit, whenTrue: Lit, whenFalse: Lit, origin: nat, env: Env)
    requires Inv(store) && Legal(store, select) && Legal(store, whenTrue) && Legal(store, whenFalse)
    ensures Chooses(store, BuildMux(store, select, whenTrue, whenFalse, origin), select, whenTrue, whenFalse, env)
    decreases Weight(store, select) + Weight(store, whenTrue) + Weight(store, whenFalse), 5
  {
    hide Value, Size, Inv;
    ConstantValue(store, env);
    if select.IsConstant() || whenTrue == whenFalse || (whenTrue.IsConstant() && whenFalse.IsConstant()) {
    } else {
      var (t, e) := if select.inverted then (whenFalse, whenTrue) else (whenTrue, whenFalse);
      if t.inverted && e.inverted {
        ReduceMeaning(store, select.Positive(), t.Positive(), e.Positive(), origin, env);
      } else {
        ReduceMeaning(store, select.Positive(), t, e, origin, env);
      }
    }
  }

  lemma {:induction false} ReduceMeaning(store: Store, select: Lit, t: Lit, e: Lit, origin: nat, env: Env)
    requires Inv(store) && Legal(store, select) && Legal(store, t) && Legal(store, e)
    requires Normal(select, t, e)
    ensures Chooses(store, MuxReduce(store, select, t, e, origin), select, t, e, env)
    decreases Weight(store, select) + Weight(store, t) + Weight(store, e), 4
  {
    hide Value, Size, Inv;
    ConstantValue(store, env);
    if t == e.Not() {
      XorMeaning(store, select, e, origin, env);
    } else if t == TRUE || t == select {
      OrMeaning(store, select, e, origin, env);
    } else if t == FALSE || t == select.Not() {
      AndMeaning(store, select.Not(), e, origin, env);
    } else if e == FALSE || e == select {
      AndMeaning(store, select, t, origin, env);
    } else if e == TRUE || e == select.Not() {
      OrMeaning(store, select.Not(), t, origin, env);
    } else {
      CollapseMeaning(store, select, t, e, origin, env);
    }
  }

  lemma {:induction false} CollapseMeaning(store: Store, select: Lit, t: Lit, e: Lit, origin: nat, env: Env)
    requires Inv(store) && Legal(store, select) && Legal(store, t) && Legal(store, e)
    requires CanonicalMux(select, t, e)
    ensures Chooses(store, MuxCollapse(store, select, t, e, origin), select, t, e, env)
    decreases Weight(store, select) + Weight(store, t) + Weight(store, e), 3
  {
    hide Value, Size, Inv;
    MuxValue(store, env, t);
    MuxValue(store, env, e);
    CollapsedWeight(store, select, t, e);
    var (t', e') := Collapsed(store, select, t, e);
    if t' != t || e' != e {
      MuxMeaning(store, select, t', e', origin, env);
    } else {
      FactorMeaning(store, select, t, e, origin, env);
    }
  }

  lemma {:induction false} FactorMeaning(store: Store, select: Lit, t: Lit, e: Lit, origin: nat, env: Env)
    requires Inv(store) && Legal(store, select) && Legal(store, t) && Legal(store, e)
    requires CanonicalMux(select, t, e)
    ensures Chooses(store, MuxFactor(store, select, t, e, origin), select, t, e, env)
    decreases Weight(store, select) + Weight(store, t) + Weight(store, e), 2
  {
    hide Value, Size, Inv, BuildAnd, BuildOr, MuxShare, Continue, Extends, MuxFanins;
    MuxArmsWeight(store, t, e);
    MuxValue(store, env, t);
    MuxValue(store, env, e);
    var tm, em := MuxFanins(store.rows, t), MuxFanins(store.rows, e);
    var w := Weight(store, select) + Weight(store, t) + Weight(store, e);
    if tm.Some? && e == tm.value.2 {
      AndMeaning(store, select, tm.value.0, origin, env);
      ContinueMeaning(store, BuildAnd(store, select, tm.value.0, origin), AsSelect(tm.value.1, tm.value.2), origin, w,
          env);
    } else if tm.Some? && e == tm.value.1 {
      OrMeaning(store, select.Not(), tm.value.0, origin, env);
      ContinueMeaning(store, BuildOr(store, select.Not(), tm.value.0, origin), AsSelect(tm.value.1, tm.value.2), origin,
          w, env);
    } else if em.Some? && t == em.value.1 {
      OrMeaning(store, select, em.value.0, origin, env);
      ContinueMeaning(store, BuildOr(store, select, em.value.0, origin), AsSelect(em.value.1, em.value.2), origin, w,
          env);
    } else if em.Some? && t == em.value.2 {
      AndMeaning(store, select.Not(), em.value.0, origin, env);
      ContinueMeaning(store, BuildAnd(store, select.Not(), em.value.0, origin), AsSelect(em.value.1, em.value.2),
          origin, w, env);
    } else {
      ShareMeaning(store, select, t, e, origin, env);
    }
  }

  lemma {:induction false} ShareMeaning(store: Store, select: Lit, t: Lit, e: Lit, origin: nat, env: Env)
    requires Inv(store) && Legal(store, select) && Legal(store, t) && Legal(store, e)
    requires CanonicalMux(select, t, e)
    ensures Chooses(store, MuxShare(store, select, t, e, origin), select, t, e, env)
    decreases Weight(store, select) + Weight(store, t) + Weight(store, e), 1
  {
    hide Value, Size, Inv, Extends, MuxFanins, BuildMux, Continue, Resolve;
    MuxArmsWeight(store, t, e);
    MuxValue(store, env, t);
    MuxValue(store, env, e);
    var tm, em := MuxFanins(store.rows, t), MuxFanins(store.rows, e);
    var w := Weight(store, select) + Weight(store, t) + Weight(store, e);
    if tm.Some? && em.Some? && tm.value.0 == em.value.0 && tm.value.1 == em.value.1 {
      MuxMeaning(store, select, tm.value.2, em.value.2, origin, env);
      ContinueMeaning(store, BuildMux(store, select, tm.value.2, em.value.2, origin), AsElse(tm.value.0, tm.value.1),
          origin, w, env);
    } else if tm.Some? && em.Some? && tm.value.0 == em.value.0 && tm.value.2 == em.value.2 {
      MuxMeaning(store, select, tm.value.1, em.value.1, origin, env);
      ContinueMeaning(store, BuildMux(store, select, tm.value.1, em.value.1, origin), AsThen(tm.value.0, tm.value.2),
          origin, w, env);
    } else {
      ResolveMeaning(store, MuxKey(select, t, e), origin, env);
    }
  }

  lemma Carry(store: Store, store': Store, l: Lit, env: Env)
    requires Extends(store, store') && Legal(store, l)
    ensures Legal(store', l) && Weight(store', l) == Weight(store, l)
    ensures LitValue(store'.rows, env, l) == LitValue(store.rows, env, l)
  {
    WeightKept(store, store', l);
    ValueKept(store, store', env, l);
  }

  lemma {:induction false} ContinueMeaning(store: Store, first: Step, position: Position, origin: nat, w: nat, env: Env)
    requires Ready(store, first, position, w)
    ensures var step := Continue(store, first, position, origin, w);
            step.answer.Ok? ==>
              && first.answer.Ok?
              && var a, l, r := LitValue(first.store.rows, env, first.answer.lit),
                                LitValue(store.rows, env, position.left), LitValue(store.rows, env, position.right);
                 LitValue(step.store.rows, env, step.answer.lit) ==
                   match position
                   case AsSelect(_, _) => if a then l else r
                   case AsThen(_, _) => if l then a else r
                   case AsElse(_, _) => if l then r else a
    decreases w, 0
  {
    hide Value, Size, Inv;
    if first.answer.Ok? {
      Carry(store, first.store, position.left, env);
      Carry(store, first.store, position.right, env);
      var (s, t, e) := position.Place(first.answer.lit);
      MuxMeaning(first.store, s, t, e, origin, env);
    }
  }
}
