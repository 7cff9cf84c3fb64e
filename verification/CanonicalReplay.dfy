/** Replaying an operation. An operation that succeeded gives the same literal,
    and changes nothing, on every store that covers what the first call left
    behind. Repetition on a grown builder and agreement between builder and
    probe are both instances. */
module CanonicalReplay {
  import opened Lists
  import opened LogicNetwork
  import opened Canonical

  /** `later` shows the rows of `store` and finds its addressable keys. */
  predicate Covers(store: Store, later: Store) {
    && store.rows <= later.rows
    && (store.mode.Probing? ==> later.rows == store.rows)
    && (forall key :: key in store.index && store.index[key] < LITERAL_NODES ==>
          key in later.index && later.index[key] == store.index[key])
  }

  lemma CoversTransitive(a: Store, b: Store, later: Store)
    requires Extends(a, b) && Covers(b, later)
    ensures Covers(a, later)
  {
  }

  /** Both stores show the same structure behind a literal of the earlier one. */
  lemma SameView(store: Store, later: Store, l: Lit)
    requires Legal(store, l) && Covers(store, later)
    ensures forall kind: NodeKind :: BinaryFanins(later.rows, l, kind) == BinaryFanins(store.rows, l, kind)
    ensures MuxFanins(later.rows, l) == MuxFanins(store.rows, l)
  {
  }

  lemma ReplayResolve(store: Store, later: Store, key: Key, origin: nat, origin': nat)
    requires Inv(store) && LegalKey(store, key) && Inv(later) && LegalKey(later, key)
    requires var step := Resolve(store, key, origin); step.answer.Ok? && Covers(step.store, later)
    ensures Resolve(later, key, origin') == Step(later, Resolve(store, key, origin).answer)
  {
    hide Size, Inv;
  }

  lemma ReplayAnd(store: Store, later: Store, left: Lit, right: Lit, origin: nat, origin': nat)
    requires Inv(store) && Legal(store, left) && Legal(store, right)
    requires Inv(later) && Legal(later, left) && Legal(later, right)
    requires var step := BuildAnd(store, left, right, origin); step.answer.Ok? && Covers(step.store, later)
    ensures BuildAnd(later, left, right, origin') == Step(later, BuildAnd(store, left, right, origin).answer)
  {
    hide Size, Inv, Resolve;
    CoversTransitive(store, BuildAnd(store, left, right, origin).store, later);
    SameView(store, later, left);
    SameView(store, later, right);
    SameView(store, later, left.Positive());
    SameView(store, later, right.Positive());
    if left.IsConstant() || right.IsConstant() || left.node == right.node {
    } else if HasFactor(BinaryFanins(store.rows, left, And), right) {
    } else if HasFactor(BinaryFanins(store.rows, right, And), left) {
    } else if right.inverted && HasFactor(BinaryFanins(store.rows, right.Positive(), And), left.Not()) {
    } else if left.inverted && HasFactor(BinaryFanins(store.rows, left.Positive(), And), right.Not()) {
    } else {
      var (l, r) := Ordered(left, right);
      ReplayResolve(store, later, AndKey(l, r), origin, origin');
    }
  }

  lemma {:induction false} ReplayOr(store: Store, later: Store, left: Lit, right: Lit, origin: nat, origin': nat)
    requires Inv(store) && Legal(store, left) && Legal(store, right)
    requires Inv(later) && Legal(later, left) && Legal(later, right)
    requires var step := BuildOr(store, left, right, origin); step.answer.Ok? && Covers(step.store, later)
    ensures BuildOr(later, left, right, origin') == Step(later, BuildOr(store, left, right, origin).answer)
    decreases Weight(store, left) + Weight(store, right), 0
  {
    hide Size, Inv;
    var step := BuildOr(store, left, right, origin);
    CoversTransitive(store, step.store, later);
    SameView(store, later, left);
    SameView(store, later, right);
    match OrFactor(store, left, right)
    case Some((select, whenTrue, whenFalse)) =>
      OrFactorWeight(store, left, right);
      OrFactorWeight(later, left, right);
      ReplayMux(store, later, select, whenTrue, whenFalse, origin, origin');
    case None =>
      ReplayAnd(store, later, left.Not(), right.Not(), origin, origin');
  }

  lemma {:induction false} ReplayXor(store: Store, later: Store, left: Lit, right: Lit, origin: nat, origin': nat)
    requires Inv(store) && Legal(store, left) && Legal(store, right)
    requires Inv(later) && Legal(later, left) && Legal(later, right)
    requires var step := BuildXor(store, left, right, origin); step.answer.Ok? && Covers(step.store, later)
    ensures BuildXor(later, left, right, origin') == Step(later, BuildXor(store, left, right, origin).answer)
    decreases Weight(store, left) + Weight(store, right)
  {
    hide Size, Inv, XorPositive;
    if left.IsConstant() || right.IsConstant() || left.node == right.node {
    } else {
      ReplayXorPositive(store, later, left.Positive(), right.Positive(), origin, origin');
    }
  }

  lemma {:induction false} ReplayXorPositive(store: Store, later: Store, left: Lit, right: Lit, origin: nat,
                                             origin': nat)
    requires Inv(store) && Legal(store, left) && Legal(store, right)
    requires Inv(later) && Legal(later, left) && Legal(later, right)
    requires !left.inverted && !right.inverted && !left.IsConstant() && !right.IsConstant()
    requires left != right
    requires var step := XorPositive(store, left, right, origin); step.answer.Ok? && Covers(step.store, later)
    ensures XorPositive(later, left, right, origin') == Step(later, XorPositive(store, left, right, origin).answer)
    decreases Weight(store, left) + Weight(store, right), 0
  {
    hide Size, Inv, Resolve, BuildXor;
    CoversTransitive(store, XorPositive(store, left, right, origin).store, later);
    SameView(store, later, left);
    SameView(store, later, right);
    ParityWeight(store, left, right);
    ParityWeight(later, left, right);
    match ParityOf(store.rows, left, right)
    case Cancelled(_) =>
    case Shared(l, r) => ReplayXor(store, later, l, r, origin, origin');
    case Unrelated =>
      var (l, r) := Ordered(left, right);
      ReplayResolve(store, later, XorKey(l, r), origin, origin');
  }

  lemma {:induction false} ReplayMux(store: Store, later: Store, select: Lit, whenTrue: Lit, whenFalse: Lit,
                                     origin: nat, origin': nat)
    requires Inv(store) && Legal(store, select) && Legal(store, whenTrue) && Legal(store, whenFalse)
    requires Inv(later) && Legal(later, select) && Legal(later, whenTrue) && Legal(later, whenFalse)
    requires var step := BuildMux(store, select, whenTrue, whenFalse, origin);
             step.answer.Ok? && Covers(step.store, later)
    ensures BuildMux(later, select, whenTrue, whenFalse, origin')
         == Step(later, BuildMux(store, select, whenTrue, whenFalse, origin).answer)
    decreases Weight(store, select) + Weight(store, whenTrue) + Weight(store, whenFalse), 5
  {
    hide Size, Inv, MuxReduce;
    if select.IsConstant() || whenTrue == whenFalse || (whenTrue.IsConstant() && whenFalse.IsConstant()) {
    } else {
      var (t, e) := if select.inverted then (whenFalse, whenTrue) else (whenTrue, whenFalse);
      if t.inverted && e.inverted {
        ReplayReduce(store, later, select.Positive(), t.Positive(), e.Positive(), origin, origin');
      } else {
        ReplayReduce(store, later, select.Positive(), t, e, origin, origin');
      }
    }
  }

  lemma {:induction false} ReplayReduce(store: Store, later: Store, select: Lit, t: Lit, e: Lit, origin: nat,
                                        origin': nat)
    requires Inv(store) && Legal(store, select) && Legal(store, t) && Legal(store, e)
    requires Inv(later) && Legal(later, select) && Legal(later, t) && Legal(later, e)
    requires Normal(select, t, e)
    requires var step := MuxReduce(store, select, t, e, origin); step.answer.Ok? && Covers(step.store, later)
    ensures MuxReduce(later, select, t, e, origin') == Step(later, MuxReduce(store, select, t, e, origin).answer)
    decreases Weight(store, select) + Weight(store, t) + Weight(store, e), 4
  {
    hide Size, Inv, BuildAnd, BuildOr, BuildXor, MuxCollapse;
    if t == e.Not() {
      ReplayXor(store, later, select, e, origin, origin');
    } else if t == TRUE || t == select {
      ReplayOr(store, later, select, e, origin, origin');
    } else if t == FALSE || t == select.Not() {
      ReplayAnd(store, later, select.Not(), e, origin, origin');
    } else if e == FALSE || e == select {
      ReplayAnd(store, later, select, t, origin, origin');
    } else if e == TRUE || e == select.Not() {
      ReplayOr(store, later, select.Not(), t, origin, origin');
    } else {
      ReplayCollapse(store, later, select, t, e, origin, origin');
    }
  }

  lemma {:induction false} ReplayCollapse(store: Store, later: Store, select: Lit, t: Lit, e: Lit, origin: nat,
                                          origin': nat)
    requires Inv(store) && Legal(store, select) && Legal(store, t) && Legal(store, e)
    requires Inv(later) && Legal(later, select) && Legal(later, t) && Legal(later, e)
    requires CanonicalMux(select, t, e)
    requires var step := MuxCollapse(store, select, t, e, origin); step.answer.Ok? && Covers(step.store, later)
    ensures MuxCollapse(later, select, t, e, origin') == Step(later, MuxCollapse(store, select, t, e, origin).answer)
    decreases Weight(store, select) + Weight(store, t) + Weight(store, e), 3
  {
    hide Size, Inv, BuildMux, MuxFactor;
    CoversTransitive(store, MuxCollapse(store, select, t, e, origin).store, later);
    SameView(store, later, t);
    SameView(store, later, e);
    CollapsedWeight(store, select, t, e);
    CollapsedWeight(later, select, t, e);
    var (t', e') := Collapsed(store, select, t, e);
    if t' != t || e' != e {
      ReplayMux(store, later, select, t', e', origin, origin');
    } else {
      ReplayFactor(store, later, select, t, e, origin, origin');
    }
  }

  lemma {:induction false} ReplayFactor(store: Store, later: Store, select: Lit, t: Lit, e: Lit, origin: nat,
                                        origin': nat)
    requires Inv(store) && Legal(store, select) && Legal(store, t) && Legal(store, e)
    requires Inv(later) && Legal(later, select) && Legal(later, t) && Legal(later, e)
    requires CanonicalMux(select, t, e)
    requires var step := MuxFactor(store, select, t, e, origin); step.answer.Ok? && Covers(step.store, later)
    ensures MuxFactor(later, select, t, e, origin') == Step(later, MuxFactor(store, select, t, e, origin).answer)
    decreases Weight(store, select) + Weight(store, t) + Weight(store, e), 2
  {
    hide Size, Inv, BuildAnd, BuildOr, Continue, MuxShare, Extends, MuxFanins;
    CoversTransitive(store, MuxFactor(store, select, t, e, origin).store, later);
    SameView(store, later, t);
    SameView(store, later, e);
    MuxArmsWeight(store, t, e);
    MuxArmsWeight(later, t, e);
    var tm, em := MuxFanins(store.rows, t), MuxFanins(store.rows, e);
    var w := Weight(store, select) + Weight(store, t) + Weight(store, e);
    var w' := Weight(later, select) + Weight(later, t) + Weight(later, e);
    if tm.Some? && e == tm.value.2 {
      var first := BuildAnd(store, select, tm.value.0, origin);
      FirstCovered(store, first, AsSelect(tm.value.1, tm.value.2), origin, w, later);
      ReplayAnd(store, later, select, tm.value.0, origin, origin');
      ReplayContinue(store, later, first, AsSelect(tm.value.1, tm.value.2), origin, origin', w, w');
    } else if tm.Some? && e == tm.value.1 {
      var first := BuildOr(store, select.Not(), tm.value.0, origin);
      FirstCovered(store, first, AsSelect(tm.value.1, tm.value.2), origin, w, later);
      ReplayOr(store, later, select.Not(), tm.value.0, origin, origin');
      ReplayContinue(store, later, first, AsSelect(tm.value.1, tm.value.2), origin, origin', w, w');
    } else if em.Some? && t == em.value.1 {
      var first := BuildOr(store, select, em.value.0, origin);
      FirstCovered(store, first, AsSelect(em.value.1, em.value.2), origin, w, later);
      ReplayOr(store, later, select, em.value.0, origin, origin');
      ReplayContinue(store, later, first, AsSelect(em.value.1, em.value.2), origin, origin', w, w');
    } else if em.Some? && t == em.value.2 {
      var first := BuildAnd(store, select.Not(), em.value.0, origin);
      FirstCovered(store, first, AsSelect(em.value.1, em.value.2), origin, w, later);
      ReplayAnd(store, later, select.Not(), em.value.0, origin, origin');
      ReplayContinue(store, later, first, AsSelect(em.value.1, em.value.2), origin, origin', w, w');
    } else {
      ReplayShare(store, later, select, t, e, origin, origin');
    }
  }

  lemma {:induction false} ReplayShare(store: Store, later: Store, select: Lit, t: Lit, e: Lit, origin: nat,
                                       origin': nat)
    requires Inv(store) && Legal(store, select) && Legal(store, t) && Legal(store, e)
    requires Inv(later) && Legal(later, select) && Legal(later, t) && Legal(later, e)
    requires CanonicalMux(select, t, e)
    requires var step := MuxShare(store, select, t, e, origin); step.answer.Ok? && Covers(step.store, later)
    ensures MuxShare(later, select, t, e, origin') == Step(later, MuxShare(store, select, t, e, origin).answer)
    decreases Weight(store, select) + Weight(store, t) + Weight(store, e), 1
  {
    hide Size, Inv, BuildMux, Continue, Resolve, Extends, MuxFanins;
    CoversTransitive(store, MuxShare(store, select, t, e, origin).store, later);
    SameView(store, later, t);
    SameView(store, later, e);
    MuxArmsWeight(store, t, e);
    MuxArmsWeight(later, t, e);
    var tm, em := MuxFanins(store.rows, t), MuxFanins(store.rows, e);
    var w := Weight(store, select) + Weight(store, t) + Weight(store, e);
    var w' := Weight(later, select) + Weight(later, t) + Weight(later, e);
    if tm.Some? && em.Some? && tm.value.0 == em.value.0 && tm.value.1 == em.value.1 {
      var first := BuildMux(store, select, tm.value.2, em.value.2, origin);
      FirstCovered(store, first, AsElse(tm.value.0, tm.value.1), origin, w, later);
      ReplayMux(store, later, select, tm.value.2, em.value.2, origin, origin');
      ReplayContinue(store, later, first, AsElse(tm.value.0, tm.value.1), origin, origin', w, w');
    } else if tm.Some? && em.Some? && tm.value.0 == em.value.0 && tm.value.2 == em.value.2 {
      var first := BuildMux(store, select, tm.value.1, em.value.1, origin);
      FirstCovered(store, first, AsThen(tm.value.0, tm.value.2), origin, w, later);
      ReplayMux(store, later, select, tm.value.1, em.value.1, origin, origin');
      ReplayContinue(store, later, first, AsThen(tm.value.0, tm.value.2), origin, origin', w, w');
    } else {
      ReplayResolve(store, later, MuxKey(select, t, e), origin, origin');
    }
  }

  /** When the whole rewrite is covered, so is its first call. */
  lemma FirstCovered(store: Store, first: Step, position: Position, origin: nat, w: nat, later: Store)
    requires Ready(store, first, position, w)
    requires var step := Continue(store, first, position, origin, w); step.answer.Ok? && Covers(step.store, later)
    ensures first.answer.Ok? && Covers(first.store, later)
  {
    hide Size, Inv, BuildMux;
    if first.answer.Ok? {
      WeightKept(store, first.store, position.left);
      WeightKept(store, first.store, position.right);
      CoversTransitive(first.store, Continue(store, first, position, origin, w).store, later);
    }
  }

  lemma {:induction false} ReplayContinue(store: Store, later: Store, first: Step, position: Position, origin: nat,
                                          origin': nat, w: nat, w': nat)
    requires Ready(store, first, position, w)
    requires Ready(later, Step(later, first.answer), position, w')
    requires var step := Continue(store, first, position, origin, w); step.answer.Ok? && Covers(step.store, later)
    ensures Continue(later, Step(later, first.answer), position, origin', w')
         == Step(later, Continue(store, first, position, origin, w).answer)
    decreases w, 0
  {
    hide Size, Inv, BuildMux;
    WeightKept(store, first.store, position.left);
    WeightKept(store, first.store, position.right);
    var (s, t, e) := position.Place(first.answer.lit);
    ReplayMux(first.store, later, s, t, e, origin, origin');
  }
}
