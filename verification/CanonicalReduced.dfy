/** Stored gates are fully reduced: no absorption, cancellation or multiplexer rewrite
    applies to a node that a builder holds. Rewriting therefore stops at the first node it
    reaches. Every node an operation adds carries the origin of that operation. */
module CanonicalReduced {
  import opened Lists
  import opened LogicNetwork
  import opened Canonical

  /** No nested multiplexer under the same select. */
  predicate Uncollapsed(rows: seq<Row>, s: Lit, t: Lit, e: Lit) {
    var tm, em := MuxFanins(rows, t), MuxFanins(rows, e);
    (tm.Some? ==> tm.value.0 != s) && (em.Some? ==> em.value.0 != s)
  }

  /** No arm is a multiplexer that has the other arm among its own. */
  predicate Unfactored(rows: seq<Row>, t: Lit, e: Lit) {
    var tm, em := MuxFanins(rows, t), MuxFanins(rows, e);
    && (tm.Some? ==> e != tm.value.1 && e != tm.value.2)
    && (em.Some? ==> t != em.value.1 && t != em.value.2)
  }

  /** No two multiplexer arms under one select that share an arm. */
  predicate Unshared(rows: seq<Row>, t: Lit, e: Lit) {
    var tm, em := MuxFanins(rows, t), MuxFanins(rows, e);
    tm.Some? && em.Some? && tm.value.0 == em.value.0 ==> tm.value.1 != em.value.1 && tm.value.2 != em.value.2
  }

  predicate Irreducible(rows: seq<Row>, s: Lit, t: Lit, e: Lit) {
    Uncollapsed(rows, s, t, e) && Unfactored(rows, t, e) && Unshared(rows, t, e)
  }

  /** `f` is a fanin of the gate that the positive literal `l` names. */
  predicate Feeds(rows: seq<Row>, f: Lit, l: Lit, kind: NodeKind) {
    && !l.inverted && l.node < |rows| && rows[l.node].kind == kind
    && (rows[l.node].fanin0 == f || rows[l.node].fanin1 == f)
  }

  /** Neither operand of a conjunction implies the other by being one of its factors. */
  predicate Unabsorbed(rows: seq<Row>, l: Lit, r: Lit) {
    && !Feeds(rows, r, l, And) && !Feeds(rows, l, r, And)
    && !Feeds(rows, l.Not(), r.Not(), And) && !Feeds(rows, r.Not(), l.Not(), And)
  }

  /** The operands of an exclusive-or have no term in common. */
  ghost predicate Uncancelled(rows: seq<Row>, l: Lit, r: Lit) {
    && !Feeds(rows, r, l, Xor) && !Feeds(rows, l, r, Xor)
    && forall f :: Feeds(rows, f, l, Xor) ==> !Feeds(rows, f, r, Xor)
  }

  ghost predicate IrreducibleKey(rows: seq<Row>, key: Key) {
    match key
    case AndKey(l, r) => Unabsorbed(rows, l, r)
    case XorKey(l, r) => Uncancelled(rows, l, r)
    case MuxKey(s, t, e) => Irreducible(rows, s, t, e)
  }

  ghost predicate ReducedRow(rows: seq<Row>, n: nat)
    requires n < |rows|
  {
    (KeyOf(rows[n]).Some? ==> IrreducibleKey(rows, KeyOf(rows[n]).value)) && TightLevel(rows, rows[n])
  }

  predicate LevelIs(rows: seq<Row>, l: Lit, level: nat) {
    l.node < |rows| && rows[l.node].level == level
  }

  /** A gate is one level above one of its fanins; anything else is at level zero. */
  predicate TightLevel(rows: seq<Row>, row: Row) {
    if row.kind.Arity() < 2 then row.level == 0
    else
      && row.level > 0
      && (|| LevelIs(rows, row.fanin0, row.level - 1) || LevelIs(rows, row.fanin1, row.level - 1)
          || (row.kind.Mux? && LevelIs(rows, row.fanin2, row.level - 1)))
  }

  ghost predicate Reduced(rows: seq<Row>) {
    forall n :: 0 <= n < |rows| ==> ReducedRow(rows, n)
  }

  /** All rows beyond those of `rows` carry the origin. */
  predicate Stamped(rows: seq<Row>, rows': seq<Row>, origin: nat) {
    |rows| <= |rows'| && forall n :: |rows| <= n < |rows'| ==> rows'[n].origin == origin
  }

  /** A canonical irreducible multiplexer goes straight to the table. */
  lemma IrreducibleMux(store: Store, s: Lit, t: Lit, e: Lit, origin: nat)
    requires Inv(store) && Legal(store, s) && Legal(store, t) && Legal(store, e)
    requires CanonicalMux(s, t, e) && Irreducible(store.rows, s, t, e)
    ensures BuildMux(store, s, t, e, origin) == Resolve(store, MuxKey(s, t, e), origin)
  {
    hide Inv, Size, Resolve;
    assert BuildMux(store, s, t, e, origin) == MuxReduce(store, s, t, e, origin);
    assert MuxReduce(store, s, t, e, origin) == MuxCollapse(store, s, t, e, origin);
    assert MuxCollapse(store, s, t, e, origin) == MuxFactor(store, s, t, e, origin);
    assert MuxFactor(store, s, t, e, origin) == MuxShare(store, s, t, e, origin);
  }

  // ----- every operation keeps stored multiplexers reduced -----

  lemma SameFanins(rows: seq<Row>, rows': seq<Row>, l: Lit)
    requires rows <= rows' && l.node < |rows|
    ensures MuxFanins(rows', l) == MuxFanins(rows, l)
  {
  }

  lemma IrreducibleKept(rows: seq<Row>, rows': seq<Row>, s: Lit, t: Lit, e: Lit)
    requires rows <= rows' && t.node < |rows| && e.node < |rows|
    ensures Irreducible(rows', s, t, e) == Irreducible(rows, s, t, e)
  {
    SameFanins(rows, rows', t);
    SameFanins(rows, rows', e);
  }

  predicate KeyWithin(key: Key, n: nat) {
    match key
    case AndKey(l, r) => l.node < n && r.node < n
    case XorKey(l, r) => l.node < n && r.node < n
    case MuxKey(s, t, e) => s.node < n && t.node < n && e.node < n
  }

  lemma IrreducibleKeyKept(rows: seq<Row>, rows': seq<Row>, key: Key)
    requires rows <= rows' && KeyWithin(key, |rows|)
    ensures IrreducibleKey(rows', key) == IrreducibleKey(rows, key)
  {
    match key
    case MuxKey(s, t, e) => IrreducibleKept(rows, rows', s, t, e);
    case AndKey(l, r) =>
    case XorKey(l, r) =>
      assert forall f :: Feeds(rows', f, l, Xor) == Feeds(rows, f, l, Xor);
      assert forall f :: Feeds(rows', f, r, Xor) == Feeds(rows, f, r, Xor);
  }

  lemma RowWithin(rows: seq<Row>, n: nat)
    requires WellFormed(rows) && n < |rows| && KeyOf(rows[n]).Some?
    ensures KeyWithin(KeyOf(rows[n]).value, n)
  {
    assert GoodRow(rows[n], n);
  }

  lemma ReducedAppend(rows: seq<Row>, row: Row)
    requires WellFormed(rows) && Reduced(rows)
    requires KeyOf(row).Some? ==> KeyWithin(KeyOf(row).value, |rows|) && IrreducibleKey(rows, KeyOf(row).value)
    requires TightLevel(rows, row)
    ensures Reduced(rows + [row])
  {
    hide IrreducibleKey, KeyWithin, WellFormed, TightLevel;
    var rows' := rows + [row];
    forall n | 0 <= n < |rows'| ensures ReducedRow(rows', n) {
      if n < |rows| { assert ReducedRow(rows, n); }
      TightLevelKept(rows, rows', rows'[n]);
      if KeyOf(rows'[n]).Some? {
        if n < |rows| {
          assert ReducedRow(rows, n);
          RowWithin(rows, n);
          KeyWithinMore(KeyOf(rows[n]).value, n, |rows|);
        }
        IrreducibleKeyKept(rows, rows', KeyOf(rows'[n]).value);
      }
    }
  }

  lemma TightLevelKept(rows: seq<Row>, rows': seq<Row>, row: Row)
    requires rows <= rows' && TightLevel(rows, row)
    ensures TightLevel(rows', row)
  {
  }

  lemma TightRow(rows: seq<Row>, key: Key, origin: nat)
    requires KeyWithin(key, |rows|)
    ensures TightLevel(rows, RowFor(rows, key, origin))
  {
  }

  lemma KeyWithinMore(key: Key, m: nat, n: nat)
    requires KeyWithin(key, m) && m <= n
    ensures KeyWithin(key, n)
  {
  }

  lemma ReducedResolve(store: Store, key: Key, origin: nat)
    requires Inv(store) && LegalKey(store, key) && Reduced(store.rows) && IrreducibleKey(store.rows, key)
    ensures Reduced(Resolve(store, key, origin).store.rows)
    ensures Stamped(store.rows, Resolve(store, key, origin).store.rows, origin)
  {
    hide Reduced, IrreducibleKey, Levelled, Interned, Size;
    if store.mode.Building? {
      TightRow(store.rows, key, origin);
      ReducedAppend(store.rows, RowFor(store.rows, key, origin));
    }
  }

  lemma FactorFeeds(rows: seq<Row>, l: Lit, f: Lit)
    ensures HasFactor(BinaryFanins(rows, l, And), f) <==> Feeds(rows, f, l, And)
  {
  }

  /** Two positive literals are unrelated exactly when they have no exclusive-or term in common. */
  lemma ParityFeeds(rows: seq<Row>, l: Lit, r: Lit)
    requires !l.inverted && !r.inverted
    ensures ParityOf(rows, l, r).Unrelated? <==> Uncancelled(rows, l, r)
  {
    var lf, rf := BinaryFanins(rows, l, Xor), BinaryFanins(rows, r, Xor);
    if lf.Some? { assert Feeds(rows, lf.value.0, l, Xor) && Feeds(rows, lf.value.1, l, Xor); }
    if rf.Some? { assert Feeds(rows, rf.value.0, r, Xor) && Feeds(rows, rf.value.1, r, Xor); }
  }

  lemma ReducedAnd(store: Store, left: Lit, right: Lit, origin: nat)
    requires Inv(store) && Legal(store, left) && Legal(store, right) && Reduced(store.rows)
    ensures Reduced(BuildAnd(store, left, right, origin).store.rows)
    ensures Stamped(store.rows, BuildAnd(store, left, right, origin).store.rows, origin)
  {
    hide Inv, Size, Resolve, Reduced, BinaryFanins;
    var step := BuildAnd(store, left, right, origin);
    if step.store != store {
      var (l, r) := Ordered(left, right);
      FactorFeeds(store.rows, left, right);
      FactorFeeds(store.rows, right, left);
      FactorFeeds(store.rows, right.Not(), left.Not());
      FactorFeeds(store.rows, left.Not(), right.Not());
      ReducedResolve(store, AndKey(l, r), origin);
    }
  }

  lemma {:induction false} ReducedOr(store: Store, left: Lit, right: Lit, origin: nat)
    requires Inv(store) && Legal(store, left) && Legal(store, right) && Reduced(store.rows)
    ensures Reduced(BuildOr(store, left, right, origin).store.rows)
    ensures Stamped(store.rows, BuildOr(store, left, right, origin).store.rows, origin)
    decreases Weight(store, left) + Weight(store, right), 0
  {
    hide Inv, Size, Reduced, BuildMux, BuildAnd;
    match OrFactor(store, left, right)
    case Some((select, whenTrue, whenFalse)) =>
      OrFactorWeight(store, left, right);
      ReducedMux(store, select, whenTrue, whenFalse, origin);
    case None =>
      ReducedAnd(store, left.Not(), right.Not(), origin);
  }

  lemma {:induction false} ReducedXor(store: Store, left: Lit, right: Lit, origin: nat)
    requires Inv(store) && Legal(store, left) && Legal(store, right) && Reduced(store.rows)
    ensures Reduced(BuildXor(store, left, right, origin).store.rows)
    ensures Stamped(store.rows, BuildXor(store, left, right, origin).store.rows, origin)
    decreases Weight(store, left) + Weight(store, right)
  {
    hide Inv, Size, Reduced, XorPositive;
    if left.IsConstant() || right.IsConstant() || left.node == right.node {
    } else {
      ReducedXorPositive(store, left.Positive(), right.Positive(), origin);
    }
  }

  lemma {:induction false} ReducedXorPositive(store: Store, left: Lit, right: Lit, origin: nat)
    requires Inv(store) && Legal(store, left) && Legal(store, right) && Reduced(store.rows)
    requires !left.inverted && !right.inverted && !left.IsConstant() && !right.IsConstant() && left != right
    ensures Reduced(XorPositive(store, left, right, origin).store.rows)
    ensures Stamped(store.rows, XorPositive(store, left, right, origin).store.rows, origin)
    decreases Weight(store, left) + Weight(store, right), 0
  {
    hide Inv, Size, Reduced, Resolve, BuildXor;
    ParityWeight(store, left, right);
    match ParityOf(store.rows, left, right)
    case Cancelled(_) =>
    case Shared(l, r) => ReducedXor(store, l, r, origin);
    case Unrelated =>
      var (l, r) := Ordered(left, right);
      ParityFeeds(store.rows, left, right);
      ReducedResolve(store, XorKey(l, r), origin);
  }

  lemma {:induction false} ReducedMux(store: Store, select: Lit, whenTrue: Lit, whenFalse: Lit, origin: nat)
    requires Inv(store) && Legal(store, select) && Legal(store, whenTrue) && Legal(store, whenFalse)
    requires Reduced(store.rows)
    ensures Reduced(BuildMux(store, select, whenTrue, whenFalse, origin).store.rows)
    ensures Stamped(store.rows, BuildMux(store, select, whenTrue, whenFalse, origin).store.rows, origin)
    decreases Weight(store, select) + Weight(store, whenTrue) + Weight(store, whenFalse), 5
  {
    hide Inv, Size, Reduced, MuxReduce;
    if select.IsConstant() || whenTrue == whenFalse || (whenTrue.IsConstant() && whenFalse.IsConstant()) {
    } else {
      var (t, e) := if select.inverted then (whenFalse, whenTrue) else (whenTrue, whenFalse);
      if t.inverted && e.inverted {
        ReducedReduce(store, select.Positive(), t.Positive(), e.Positive(), origin);
      } else {
        ReducedReduce(store, select.Positive(), t, e, origin);
      }
    }
  }

  lemma {:induction false} ReducedReduce(store: Store, select: Lit, t: Lit, e: Lit, origin: nat)
    requires Inv(store) && Legal(store, select) && Legal(store, t) && Legal(store, e) && Reduced(store.rows)
    requires Normal(select, t, e)
    ensures Reduced(MuxReduce(store, select, t, e, origin).store.rows)
    ensures Stamped(store.rows, MuxReduce(store, select, t, e, origin).store.rows, origin)
    decreases Weight(store, select) + Weight(store, t) + Weight(store, e), 4
  {
    hide Inv, Size, Reduced, BuildAnd, BuildOr, BuildXor, MuxCollapse;
    if t == e.Not() {
      ReducedXor(store, select, e, origin);
    } else if t == TRUE || t == select {
      ReducedOr(store, select, e, origin);
    } else if t == FALSE || t == select.Not() {
      ReducedAnd(store, select.Not(), e, origin);
    } else if e == FALSE || e == select {
      ReducedAnd(store, select, t, origin);
    } else if e == TRUE || e == select.Not() {
      ReducedOr(store, select.Not(), t, origin);
    } else {
      ReducedCollapse(store, select, t, e, origin);
    }
  }

  lemma {:induction false} ReducedCollapse(store: Store, select: Lit, t: Lit, e: Lit, origin: nat)
    requires Inv(store) && Legal(store, select) && Legal(store, t) && Legal(store, e) && Reduced(store.rows)
    requires CanonicalMux(select, t, e)
    ensures Reduced(MuxCollapse(store, select, t, e, origin).store.rows)
    ensures Stamped(store.rows, MuxCollapse(store, select, t, e, origin).store.rows, origin)
    decreases Weight(store, select) + Weight(store, t) + Weight(store, e), 3
  {
    hide Inv, Size, Reduced, BuildMux, MuxFactor;
    CollapsedWeight(store, select, t, e);
    var (t', e') := Collapsed(store, select, t, e);
    if t' != t || e' != e {
      ReducedMux(store, select, t', e', origin);
    } else {
      ReducedFactor(store, select, t, e, origin);
    }
  }

  lemma {:induction false} ReducedFactor(store: Store, select: Lit, t: Lit, e: Lit, origin: nat)
    requires Inv(store) && Legal(store, select) && Legal(store, t) && Legal(store, e) && Reduced(store.rows)
    requires CanonicalMux(select, t, e) && Uncollapsed(store.rows, select, t, e)
    ensures Reduced(MuxFactor(store, select, t, e, origin).store.rows)
    ensures Stamped(store.rows, MuxFactor(store, select, t, e, origin).store.rows, origin)
    decreases Weight(store, select) + Weight(store, t) + Weight(store, e), 2
  {
    hide Inv, Size, Reduced, BuildAnd, BuildOr, Continue, MuxShare;
    MuxArmsWeight(store, t, e);
    var tm, em := MuxFanins(store.rows, t), MuxFanins(store.rows, e);
    var w := Weight(store, select) + Weight(store, t) + Weight(store, e);
    if tm.Some? && e == tm.value.2 {
      ReducedAnd(store, select, tm.value.0, origin);
      ReducedContinue(store, BuildAnd(store, select, tm.value.0, origin), AsSelect(tm.value.1, tm.value.2), origin, w);
    } else if tm.Some? && e == tm.value.1 {
      ReducedOr(store, select.Not(), tm.value.0, origin);
      ReducedContinue(store, BuildOr(store, select.Not(), tm.value.0, origin), AsSelect(tm.value.1, tm.value.2), origin,
          w);
    } else if em.Some? && t == em.value.1 {
      ReducedOr(store, select, em.value.0, origin);
      ReducedContinue(store, BuildOr(store, select, em.value.0, origin), AsSelect(em.value.1, em.value.2), origin, w);
    } else if em.Some? && t == em.value.2 {
      ReducedAnd(store, select.Not(), em.value.0, origin);
      ReducedContinue(store, BuildAnd(store, select.Not(), em.value.0, origin), AsSelect(em.value.1, em.value.2),
          origin, w);
    } else {
      ReducedShare(store, select, t, e, origin);
    }
  }

  lemma {:induction false} ReducedShare(store: Store, select: Lit, t: Lit, e: Lit, origin: nat)
    requires Inv(store) && Legal(store, select) && Legal(store, t) && Legal(store, e) && Reduced(store.rows)
    requires CanonicalMux(select, t, e) && Uncollapsed(store.rows, select, t, e) && Unfactored(store.rows, t, e)
    ensures Reduced(MuxShare(store, select, t, e, origin).store.rows)
    ensures Stamped(store.rows, MuxShare(store, select, t, e, origin).store.rows, origin)
    decreases Weight(store, select) + Weight(store, t) + Weight(store, e), 1
  {
    hide Inv, Size, Reduced, BuildMux, Continue, Resolve;
    MuxArmsWeight(store, t, e);
    var tm, em := MuxFanins(store.rows, t), MuxFanins(store.rows, e);
    var w := Weight(store, select) + Weight(store, t) + Weight(store, e);
    if tm.Some? && em.Some? && tm.value.0 == em.value.0 && tm.value.1 == em.value.1 {
      ReducedMux(store, select, tm.value.2, em.value.2, origin);
      ReducedContinue(store, BuildMux(store, select, tm.value.2, em.value.2, origin), AsElse(tm.value.0, tm.value.1),
          origin, w);
    } else if tm.Some? && em.Some? && tm.value.0 == em.value.0 && tm.value.2 == em.value.2 {
      ReducedMux(store, select, tm.value.1, em.value.1, origin);
      ReducedContinue(store, BuildMux(store, select, tm.value.1, em.value.1, origin), AsThen(tm.value.0, tm.value.2),
          origin, w);
    } else {
      ReducedResolve(store, MuxKey(select, t, e), origin);
    }
  }

  lemma {:induction false} ReducedContinue(store: Store, first: Step, position: Position, origin: nat, w: nat)
    requires Ready(store, first, position, w) && Reduced(first.store.rows)
    requires Stamped(store.rows, first.store.rows, origin)
    ensures Reduced(Continue(store, first, position, origin, w).store.rows)
    ensures Stamped(store.rows, Continue(store, first, position, origin, w).store.rows, origin)
    decreases w, 0
  {
    hide Inv, Size, Reduced, BuildMux;
    if first.answer.Ok? {
      WeightKept(store, first.store, position.left);
      WeightKept(store, first.store, position.right);
      var (s, t, e) := position.Place(first.answer.lit);
      ReducedMux(first.store, s, t, e, origin);
    }
  }
}
