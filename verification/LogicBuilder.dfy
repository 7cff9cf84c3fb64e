/** The builder as it is stored: six parallel vectors and an intern table,
    updated in place. Each method leaves exactly the store, and returns exactly
    the answer, of the corresponding canonicalisation rule. */
module LogicBuilder {
  import opened Lists
  import opened LogicNetwork
  import opened Canonical

  /** The rows that parallel vectors spell. */
  ghost function Zip(kinds: seq<NodeKind>, f0: seq<Lit>, f1: seq<Lit>, f2: seq<Lit>, levels: seq<nat>,
                     origins: seq<nat>): (rows: seq<Row>)
    requires |kinds| == |f0| == |f1| == |f2| == |levels| == |origins|
    ensures |rows| == |kinds|
    ensures forall i :: 0 <= i < |kinds| ==> rows[i] == Row(kinds[i], f0[i], f1[i], f2[i], levels[i], origins[i])
  {
    seq(|kinds|, i requires 0 <= i < |kinds| => Row(kinds[i], f0[i], f1[i], f2[i], levels[i], origins[i]))
  }

  lemma ZipAppend(kinds: seq<NodeKind>, f0: seq<Lit>, f1: seq<Lit>, f2: seq<Lit>, levels: seq<nat>, origins: seq<nat>,
                  row: Row)
    requires |kinds| == |f0| == |f1| == |f2| == |levels| == |origins|
    ensures Zip(kinds + [row.kind], f0 + [row.fanin0], f1 + [row.fanin1], f2 + [row.fanin2], levels + [row.level],
        origins + [row.origin])
            == Zip(kinds, f0, f1, f2, levels, origins) + [row]
  {
  }

  class Builder {
    var kinds: seq<NodeKind>
    var fanin0: seq<Lit>
    var fanin1: seq<Lit>
    var fanin2: seq<Lit>
    var levels: seq<nat>
    var origins: seq<nat>
    var interned: map<Key, nat>

    predicate Aligned()
      reads this
    {
      |kinds| == |fanin0| == |fanin1| == |fanin2| == |levels| == |origins|
    }

    ghost function Rows(): (rows: seq<Row>)
      reads this
      requires Aligned()
      ensures |rows| == |kinds|
    {
      Zip(kinds, fanin0, fanin1, fanin2, levels, origins)
    }

    ghost function View(): Store
      reads this
      requires Aligned()
    {
      Store(Building, Rows(), interned)
    }

    ghost predicate Valid()
      reads this
    {
      Aligned() && Inv(View())
    }

    constructor ()
      ensures Valid() && View() == EMPTY
    {
      kinds := [Constant];
      fanin0, fanin1, fanin2 := [FALSE], [FALSE], [FALSE];
      levels, origins := [0], [0];
      interned := map[];
      new;
      assert Rows() == EMPTY.rows;
    }

    // ----- accessors -----

    function LevelAt(l: Lit): (level: nat)
      reads this
      requires Aligned()
      ensures level == LevelFrom(Rows(), l)
    {
      if l.node < |levels| then levels[l.node] else 0
    }

    function LevelFor(kind: NodeKind, f0: Lit, f1: Lit, f2: Lit): (level: nat)
      reads this
      requires Aligned()
      ensures level == LevelOf(Rows(), kind, f0, f1, f2)
    {
      if kind.Arity() < 2 then 0 else
      var level := 1 + Max(LevelAt(f0), LevelAt(f1));
      if kind.Mux? then Max(level, 1 + LevelAt(f2)) else level
    }

    function BinaryAt(value: Lit, kind: NodeKind): (f: Option<(Lit, Lit)>)
      reads this
      requires Aligned()
      ensures f == BinaryFanins(Rows(), value, kind)
    {
      if value.inverted || value.node >= |kinds| || kinds[value.node] != kind then None
      else Some((fanin0[value.node], fanin1[value.node]))
    }

    function MuxAt(value: Lit): (f: Option<(Lit, Lit, Lit)>)
      reads this
      requires Aligned()
      ensures f == MuxFanins(Rows(), value)
    {
      if value.inverted || value.node >= |kinds| || kinds[value.node] != Mux then None
      else Some((fanin0[value.node], fanin1[value.node], fanin2[value.node]))
    }

    // ----- allocation -----

    /** Appends a row. The stored level fits 32 bits because no level exceeds its own index. */
    method Append(kind: NodeKind, f0: Lit, f1: Lit, f2: Lit, origin: nat) returns (answer: Answer)
      requires Valid()
      modifies this
      ensures Aligned() && interned == old(interned)
      ensures Step(View(), answer)
           == Push(old(View()), Row(kind, f0, f1, f2, LevelOf(old(Rows()), kind, f0, f1, f2), origin))
    {
      hide Inv, Size, LevelOf, Zip;
      var node := |kinds|;
      if node >= NODE_IDS { return Err(Capacity); }
      var level := LevelFor(kind, f0, f1, f2);
      ZipAppend(kinds, fanin0, fanin1, fanin2, levels, origins, Row(kind, f0, f1, f2, level, origin));
      kinds := kinds + [kind];
      fanin0, fanin1, fanin2 := fanin0 + [f0], fanin1 + [f1], fanin2 + [f2];
      levels, origins := levels + [level], origins + [origin];
      answer := if node < LITERAL_NODES then Ok(Lit(node, false)) else Err(Capacity);
    }

    method Intern(key: Key, origin: nat) returns (answer: Answer)
      requires Valid() && LegalKey(View(), key)
      modifies this
      ensures Valid()
      ensures Step(View(), answer) == Resolve(old(View()), key, origin)
    {
      hide Inv, Size;
      ghost var before := View();
      ghost var step := Resolve(before, key, origin);
      if key in interned {
        var n := interned[key];
        return if n < LITERAL_NODES then Ok(Lit(n, false)) else Err(Capacity);
      }
      match key {
        case AndKey(l, r) => answer := Append(And, l, r, FALSE, origin);
        case XorKey(l, r) => answer := Append(Xor, l, r, FALSE, origin);
        case MuxKey(s, t, e) => answer := Append(Mux, s, t, e, origin);
      }
      ghost var pushed := Rows();
      assert Step(View(), answer) == Push(before, RowFor(before.rows, key, origin));
      if answer.Ok? { interned := interned[key := answer.lit.node]; }
      assert Rows() == pushed;
      assert View() == step.store;
    }

    // ----- public operations -----

    method AddInput(origin: nat) returns (answer: Answer)
      requires Valid()
      modifies this
      ensures Valid()
      ensures Step(View(), answer) == BuildInput(old(View()), origin)
    {
      ghost var step := BuildInput(View(), origin);
      answer := Append(Input, FALSE, FALSE, FALSE, origin);
    }

    method AddAnd(left: Lit, right: Lit, origin: nat) returns (answer: Answer)
      requires Valid() && Legal(View(), left) && Legal(View(), right)
      modifies this
      ensures Valid()
      ensures Step(View(), answer) == BuildAnd(old(View()), left, right, origin)
    {
      hide Inv, Size, Resolve;
      if left == FALSE || right == FALSE || left == right.Not() { return Ok(FALSE); }
      if left == TRUE { return Ok(right); }
      if right == TRUE || left == right { return Ok(left); }
      if HasFactor(BinaryAt(left, And), right) { return Ok(left); }
      if HasFactor(BinaryAt(right, And), left) { return Ok(right); }
      if right.inverted && HasFactor(BinaryAt(right.Positive(), And), left.Not()) { return Ok(left); }
      if left.inverted && HasFactor(BinaryAt(left.Positive(), And), right.Not()) { return Ok(right); }
      var (l, r) := Ordered(left, right);
      answer := Intern(AndKey(l, r), origin);
    }

    method AddOr(left: Lit, right: Lit, origin: nat) returns (answer: Answer)
      requires Valid() && Legal(View(), left) && Legal(View(), right)
      modifies this
      ensures Valid()
      ensures Step(View(), answer) == BuildOr(old(View()), left, right, origin)
      decreases Weight(View(), left) + Weight(View(), right), 0
    {
      hide Inv, Size;
      var leftProduct, rightProduct := BinaryAt(left, And), BinaryAt(right, And);
      if leftProduct.Some? && rightProduct.Some? {
        match ComplementaryProductFactor(leftProduct.value, rightProduct.value) {
          case Some((select, whenTrue, whenFalse)) =>
            OrFactorWeight(View(), left, right);
            answer := AddMux(select, whenTrue, whenFalse, origin);
            return;
          case None =>
        }
      }
      answer := AddAnd(left.Not(), right.Not(), origin);
      answer := Phased(answer, true);
    }

    method AddXor(left: Lit, right: Lit, origin: nat) returns (answer: Answer)
      requires Valid() && Legal(View(), left) && Legal(View(), right)
      modifies this
      ensures Valid()
      ensures Step(View(), answer) == BuildXor(old(View()), left, right, origin)
      decreases Weight(View(), left) + Weight(View(), right)
    {
      hide Inv, Size, XorPositive;
      if left == FALSE { return Ok(right); }
      if right == FALSE { return Ok(left); }
      if left == TRUE { return Ok(right.Not()); }
      if right == TRUE { return Ok(left.Not()); }
      if left == right { return Ok(FALSE); }
      if left == right.Not() { return Ok(TRUE); }
      var inverted := left.inverted != right.inverted;
      answer := AddXorPositive(left.Positive(), right.Positive(), origin);
      answer := Phased(answer, inverted);
    }

    method AddXorPositive(left: Lit, right: Lit, origin: nat) returns (answer: Answer)
      requires Valid() && Legal(View(), left) && Legal(View(), right)
      requires !left.inverted && !right.inverted && !left.IsConstant() && !right.IsConstant()
      requires left != right
      modifies this
      ensures Valid()
      ensures Step(View(), answer) == XorPositive(old(View()), left, right, origin)
      decreases Weight(View(), left) + Weight(View(), right), 0
    {
      hide Inv, Size, Resolve, BuildXor;
      var leftFanins, rightFanins := BinaryAt(left, Xor), BinaryAt(right, Xor);
      ParityWeight(View(), left, right);
      if leftFanins.Some? && XorRemaining(leftFanins.value, right).Some? {
        return Ok(XorRemaining(leftFanins.value, right).value);
      }
      if rightFanins.Some? && XorRemaining(rightFanins.value, left).Some? {
        return Ok(XorRemaining(rightFanins.value, left).value);
      }
      if leftFanins.Some? && rightFanins.Some? {
        match XorSharedRemaining(leftFanins.value, rightFanins.value) {
          case Some((l, r)) => answer := AddXor(l, r, origin); return;
          case None =>
        }
      }
      var (l, r) := Ordered(left, right);
      answer := Intern(XorKey(l, r), origin);
    }

    method AddMux(select: Lit, whenTrue: Lit, whenFalse: Lit, origin: nat) returns (answer: Answer)
      requires Valid() && Legal(View(), select) && Legal(View(), whenTrue) && Legal(View(), whenFalse)
      modifies this
      ensures Valid()
      ensures Step(View(), answer) == BuildMux(old(View()), select, whenTrue, whenFalse, origin)
      decreases Weight(View(), select) + Weight(View(), whenTrue) + Weight(View(), whenFalse), 5
    {
      hide Inv, Size, MuxReduce;
      if select == FALSE { return Ok(whenFalse); }
      if select == TRUE || whenTrue == whenFalse { return Ok(whenTrue); }
      if whenTrue == TRUE && whenFalse == FALSE { return Ok(select); }
      if whenTrue == FALSE && whenFalse == TRUE { return Ok(select.Not()); }
      var t, e := whenTrue, whenFalse;
      if select.inverted { t, e := e, t; }
      var inverted := t.inverted && e.inverted;
      if inverted { t, e := t.Positive(), e.Positive(); }
      answer := AddReducedMux(select.Positive(), t, e, origin);
      answer := Phased(answer, inverted);
    }

    method AddReducedMux(select: Lit, t: Lit, e: Lit, origin: nat) returns (answer: Answer)
      requires Valid() && Legal(View(), select) && Legal(View(), t) && Legal(View(), e)
      requires Normal(select, t, e)
      modifies this
      ensures Valid()
      ensures Step(View(), answer) == MuxReduce(old(View()), select, t, e, origin)
      decreases Weight(View(), select) + Weight(View(), t) + Weight(View(), e), 4
    {
      hide Inv, Size, BuildAnd, BuildOr, BuildXor, MuxCollapse;
      if t == e.Not() {
        answer := AddXor(select, e, origin);
      } else if t == TRUE || t == select {
        answer := AddOr(select, e, origin);
      } else if t == FALSE || t == select.Not() {
        answer := AddAnd(select.Not(), e, origin);
      } else if e == FALSE || e == select {
        answer := AddAnd(select, t, origin);
      } else if e == TRUE || e == select.Not() {
        answer := AddOr(select.Not(), t, origin);
      } else {
        answer := AddCollapsedMux(select, t, e, origin);
      }
    }

    method AddCollapsedMux(select: Lit, t: Lit, e: Lit, origin: nat) returns (answer: Answer)
      requires Valid() && Legal(View(), select) && Legal(View(), t) && Legal(View(), e)
      requires CanonicalMux(select, t, e)
      modifies this
      ensures Valid()
      ensures Step(View(), answer) == MuxCollapse(old(View()), select, t, e, origin)
      decreases Weight(View(), select) + Weight(View(), t) + Weight(View(), e), 3
    {
      hide Inv, Size, BuildMux, MuxFactor;
      var tm, em := MuxAt(t), MuxAt(e);
      CollapsedWeight(View(), select, t, e);
      var t', e', changed := t, e, false;
      if tm.Some? && tm.value.0 == select { t', changed := tm.value.1, true; }
      if em.Some? && em.value.0 == select { e', changed := em.value.2, true; }
      if changed {
        answer := AddMux(select, t', e', origin);
      } else {
        answer := AddFactoredMux(select, t, e, origin);
      }
    }

    method AddFactoredMux(select: Lit, t: Lit, e: Lit, origin: nat) returns (answer: Answer)
      requires Valid() && Legal(View(), select) && Legal(View(), t) && Legal(View(), e)
      requires CanonicalMux(select, t, e)
      modifies this
      ensures Valid()
      ensures Step(View(), answer) == MuxFactor(old(View()), select, t, e, origin)
      decreases Weight(View(), select) + Weight(View(), t) + Weight(View(), e), 2
    {
      hide Inv, Size, BuildAnd, BuildOr, MuxShare, Continue;
      ghost var before := View();
      var tm, em := MuxAt(t), MuxAt(e);
      MuxArmsWeight(before, t, e);
      ghost var w := Weight(before, select) + Weight(before, t) + Weight(before, e);
      var arms;
      if tm.Some? && e == tm.value.2 {
        arms := tm.value;
        answer := AddAnd(select, tm.value.0, origin);
      } else if tm.Some? && e == tm.value.1 {
        arms := tm.value;
        answer := AddOr(select.Not(), tm.value.0, origin);
      } else if em.Some? && t == em.value.1 {
        arms := em.value;
        answer := AddOr(select, em.value.0, origin);
      } else if em.Some? && t == em.value.2 {
        arms := em.value;
        answer := AddAnd(select.Not(), em.value.0, origin);
      } else {
        answer := AddSharedMux(select, t, e, origin);
        return;
      }
      answer := Resume(before, answer, AsSelect(arms.1, arms.2), origin, w);
    }

    method AddSharedMux(select: Lit, t: Lit, e: Lit, origin: nat) returns (answer: Answer)
      requires Valid() && Legal(View(), select) && Legal(View(), t) && Legal(View(), e)
      requires CanonicalMux(select, t, e)
      modifies this
      ensures Valid()
      ensures Step(View(), answer) == MuxShare(old(View()), select, t, e, origin)
      decreases Weight(View(), select) + Weight(View(), t) + Weight(View(), e), 1
    {
      hide Inv, Size, BuildMux, Continue, Resolve;
      ghost var before := View();
      var tm, em := MuxAt(t), MuxAt(e);
      MuxArmsWeight(before, t, e);
      ghost var w := Weight(before, select) + Weight(before, t) + Weight(before, e);
      if tm.Some? && em.Some? && tm.value.0 == em.value.0 && tm.value.1 == em.value.1 {
        answer := AddMux(select, tm.value.2, em.value.2, origin);
        answer := Resume(before, answer, AsElse(tm.value.0, tm.value.1), origin, w);
      } else if tm.Some? && em.Some? && tm.value.0 == em.value.0 && tm.value.2 == em.value.2 {
        answer := AddMux(select, tm.value.1, em.value.1, origin);
        answer := Resume(before, answer, AsThen(tm.value.0, tm.value.2), origin, w);
      } else {
        answer := Intern(MuxKey(select, t, e), origin);
      }
    }

    /** Builds the second multiplexer of a rewrite around the first call's literal. */
    method Resume(ghost before: Store, first: Answer, position: Position, origin: nat, ghost w: nat)
        returns (answer: Answer)
      requires Valid() && Ready(before, Step(View(), first), position, w)
      modifies this
      ensures Valid()
      ensures Step(View(), answer) == Continue(before, Step(old(View()), first), position, origin, w)
      decreases w, 0
    {
      hide Inv, Size, BuildMux;
      if first.Err? { return first; }
      WeightKept(before, View(), position.left);
      WeightKept(before, View(), position.right);
      var (s, t, e) := position.Place(first.lit);
      answer := AddMux(s, t, e, origin);
    }
  }

  function Phased(answer: Answer, inverted: bool): Answer {
    if answer.Ok? then Ok(WithPhase(answer.lit, inverted)) else answer
  }
}
