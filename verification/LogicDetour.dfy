/** A probe may report a key absent although the builder would answer with a node
    the network has. The failing family, for every network, and one reachable member. */
module LogicDetour {
  import opened Lists
  import opened LogicNetwork
  import opened Canonical
  import opened CanonicalReduced
  import opened LogicProbe
  import opened LogicAbsence
  import opened LogicRuns

  // ----- the family -----

  /** `left` and `right` choose between `shared` and `inner`, or `shared` and `b`, under `i`;
      `inner` chooses between `a` and `b` under `j`; and `s` narrows `j` to `i`. */
  predicate Nested(store: Store, s: Lit, left: Lit, right: Lit, i: Lit, shared: Lit, inner: Lit, j: Lit, a: Lit, b: Lit)
  {
    && MuxFanins(store.rows, left) == Some((i, shared, inner))
    && MuxFanins(store.rows, right) == Some((i, shared, b))
    && MuxFanins(store.rows, inner) == Some((j, a, b))
    && CanonicalMux(s, left, right) && CanonicalMux(s, inner, b) && CanonicalMux(i, a, b)
    && Uncollapsed(store.rows, s, left, right) && Uncollapsed(store.rows, s, inner, b)
    && Uncollapsed(store.rows, i, a, b)
    && i != j
  }

  /** The call is built around the multiplexer of `a` and `b` under `i`. */
  lemma NestedSteps(store: Store, s: Lit, left: Lit, right: Lit, i: Lit, shared: Lit, inner: Lit, j: Lit, a: Lit,
                    b: Lit, origin: nat)
    requires store.mode.Building? && Inv(store) && Reduced(store.rows)
    requires Legal(store, s) && Legal(store, left) && Legal(store, right)
    requires Nested(store, s, left, right, i, shared, inner, j, a, b)
    requires Legal(store, j) && BuildAnd(store, s, j, origin) == Step(store, Ok(i))
    ensures Legal(store, i) && Legal(store, a) && Legal(store, b) && Legal(store, shared)
    ensures var first := Resolve(store, MuxKey(i, a, b), origin);
            BuildMux(store, s, left, right, origin) ==
              if first.answer.Err? then first
              else BuildMux(first.store, i, shared, first.answer.lit, origin)
  {
    hide Inv, Size, Reduced, Resolve, BuildAnd, BuildOr;
    StoredMux(store, store, left);
    StoredMux(store, store, right);
    StoredMux(store, store, inner);
    var w := Weight(store, s) + Weight(store, left) + Weight(store, right);
    MuxArmsWeight(store, left, right);
    MuxArmsWeight(store, inner, b);
    IrreducibleMux(store, i, a, b, origin);
    assert Unfactored(store.rows, left, right);
    ToFactor(store, s, left, right, origin);
    ToFactor(store, s, inner, b, origin);
    InnerFactor(store, s, inner, i, j, a, b, origin);
    var first := BuildMux(store, s, inner, b, origin);
    assert MuxFactor(store, s, left, right, origin) == MuxShare(store, s, left, right, origin);
    assert MuxShare(store, s, left, right, origin) == Continue(store, first, AsElse(i, shared), origin, w);
    if first.answer.Ok? {
      WeightKept(store, first.store, i);
      WeightKept(store, first.store, shared);
    }
  }

  lemma ToFactor(store: Store, s: Lit, t: Lit, e: Lit, origin: nat)
    requires Inv(store) && Legal(store, s) && Legal(store, t) && Legal(store, e)
    requires CanonicalMux(s, t, e) && Uncollapsed(store.rows, s, t, e)
    ensures BuildMux(store, s, t, e, origin) == MuxFactor(store, s, t, e, origin)
  {
    hide Inv, Size, MuxFactor;
    assert BuildMux(store, s, t, e, origin) == MuxReduce(store, s, t, e, origin);
    assert MuxReduce(store, s, t, e, origin) == MuxCollapse(store, s, t, e, origin);
  }

  lemma InnerFactor(store: Store, s: Lit, inner: Lit, i: Lit, j: Lit, a: Lit, b: Lit, origin: nat)
    requires Inv(store) && Legal(store, s) && Legal(store, inner) && Legal(store, b) && CanonicalMux(s, inner, b)
    requires MuxFanins(store.rows, inner) == Some((j, a, b)) && Legal(store, j) && Legal(store, a) && Legal(store, i)
    requires BuildAnd(store, s, j, origin) == Step(store, Ok(i))
    ensures MuxFactor(store, s, inner, b, origin) == BuildMux(store, i, a, b, origin)
  {
    hide Inv, Size, BuildAnd, BuildMux;
    MuxArmsWeight(store, inner, b);
    var w := Weight(store, s) + Weight(store, inner) + Weight(store, b);
    assert MuxFactor(store, s, inner, b, origin) == Continue(store, Step(store, Ok(i)), AsSelect(a, b), origin, w);
  }

  /** On the whole family, the call settles exactly when the multiplexer of `a` and `b`
      under `i` is present; when it is missing the answer is `right`, which was there all along. */
  lemma NestedSettles(builder: Store, probe: Store, s: Lit, left: Lit, right: Lit, i: Lit, shared: Lit, inner: Lit,
                      j: Lit, a: Lit, b: Lit, origin: nat)
    requires Views(builder, probe) && Legal(builder, s) && Legal(builder, left) && Legal(builder, right)
    requires Legal(builder, j)
    requires Nested(builder, s, left, right, i, shared, inner, j, a, b)
    requires BuildAnd(builder, s, j, origin) == Step(builder, Ok(i))
    ensures var step := BuildMux(builder, s, left, right, origin);
            var found := BuildMux(probe, s, left, right, 0);
            && (MuxKey(i, a, b) !in builder.index && |builder.rows| < LITERAL_NODES ==> step.answer.Ok?)
            && (step.answer.Ok? ==>
              && ((found.answer.Err? <==> step.answer.lit.node >= |builder.rows|) <==> MuxKey(i, a, b) in builder.index)
              && (MuxKey(i, a, b) !in builder.index ==>
                  found.answer.Err? && step.answer == Ok(right) && !DirectMux(probe, s, left, right)))
  {
    hide Inv, Size, Reduced, BuildMux, BuildAnd, IsIndexOf, Resolve, DirectMux;
    NestedSteps(builder, s, left, right, i, shared, inner, j, a, b, origin);
    StoredMux(builder, builder, left);
    StoredMux(builder, builder, right);
    StoredMux(builder, builder, inner);
    var key := MuxKey(i, a, b);
    var step := BuildMux(builder, s, left, right, origin);
    var first := Resolve(builder, key, origin);
    MuxFirst(builder, probe, s, left, right, origin);
    KeyLookup(builder, key, origin);
    if first.answer.Ok? {
      BackToRight(builder, first.store, right, i, shared, a, b, first.answer.lit, origin);
      if step.answer.Ok? && key !in builder.index && DirectMux(probe, s, left, right) {
        AbsentMux(builder, probe, s, left, right, origin);
      }
    }
  }

  lemma KeyLookup(builder: Store, key: Key, origin: nat)
    requires builder.mode.Building? && Inv(builder) && LegalKey(builder, key) && key.MuxKey?
    ensures var first := Resolve(builder, key, origin);
            (|builder.rows| < LITERAL_NODES ==> first.answer.Ok?)
            && (first.answer.Ok? ==>
              && !first.answer.lit.inverted && (key in builder.index <==> first.store == builder)
              && MuxFanins(first.store.rows, first.answer.lit) == Some((key.select, key.whenTrue, key.whenFalse))
              && (first.store != builder ==> first.answer.lit.node >= |builder.rows|))
  {
    hide Size, WellFormed, Levelled;
  }

  /** Around the multiplexer of `a` and `b` under `i`, the shared arm leads back to `right`;
      only where the shared arm is its complement does an exclusive-or arise, which settles. */
  lemma BackToRight(builder: Store, grown: Store, right: Lit, i: Lit, shared: Lit, a: Lit, b: Lit, r: Lit, origin: nat)
    requires builder.mode.Building? && Inv(builder) && Reduced(builder.rows) && Extends(builder, grown) && Inv(grown)
    requires MuxFanins(builder.rows, right) == Some((i, shared, b)) && Legal(builder, right)
    requires Legal(grown, i) && Legal(grown, shared) && Legal(grown, b) && Legal(grown, r) && !r.inverted
    requires MuxFanins(grown.rows, r) == Some((i, a, b)) && CanonicalMux(i, a, b)
    requires grown == builder || r.node >= |builder.rows|
    ensures var step := BuildMux(grown, i, shared, r, origin);
            && (grown != builder ==> step == Step(grown, Ok(right)))
            && (grown == builder ==> Settles(builder, step))
  {
    hide Size, Levelled, Irreducible, BuildMux, BuildXor, Resolve;
    StoredMux(builder, grown, right);
    ArmsBelow(grown, r);
    if shared.node == r.node {
      OtherSelect(grown.rows, i, shared, b, r);
      AppendsXor(grown, i, r, origin);
      ComplementArms(grown, i, r, origin);
    } else {
      CollapseElse(grown, i, shared, r, b, origin);
      IrreducibleMux(grown, i, shared, b, origin);
      FoundRight(builder, grown, right, i, shared, b, origin);
    }
  }

  /** An arm of an irreducible multiplexer is no multiplexer under its select. */
  lemma OtherSelect(rows: seq<Row>, i: Lit, t: Lit, e: Lit, r: Lit)
    requires Irreducible(rows, i, t, e) && MuxFanins(rows, r).Some? && MuxFanins(rows, r).value.0 == i
    ensures t != r
  {
  }

  lemma ComplementArms(store: Store, i: Lit, r: Lit, origin: nat)
    requires Inv(store) && Legal(store, i) && Legal(store, r) && !i.inverted && !i.IsConstant() && !r.inverted
    requires !r.IsConstant()
    ensures BuildMux(store, i, r.Not(), r, origin) == BuildXor(store, i, r, origin)
  {
    hide Inv, Size, BuildXor;
    assert BuildMux(store, i, r.Not(), r, origin) == MuxReduce(store, i, r.Not(), r, origin);
  }

  lemma CollapseElse(store: Store, i: Lit, shared: Lit, r: Lit, b: Lit, origin: nat)
    requires Inv(store) && Legal(store, i) && Legal(store, shared) && Legal(store, r) && Legal(store, b)
    requires CanonicalMux(i, shared, r) && Irreducible(store.rows, i, shared, b)
    requires MuxFanins(store.rows, r).Some? && MuxFanins(store.rows, r).value.0 == i
    requires MuxFanins(store.rows, r).value.2 == b
    requires b.node < r.node
    ensures BuildMux(store, i, shared, r, origin) == BuildMux(store, i, shared, b, origin)
  {
    hide Inv, Size, BuildMux;
    assert Collapsed(store, i, shared, r) == (shared, b);
    CollapsesTo(store, i, shared, r, origin);
  }

  lemma FoundRight(builder: Store, grown: Store, right: Lit, i: Lit, shared: Lit, b: Lit, origin: nat)
    requires builder.mode.Building? && Inv(builder) && Extends(builder, grown) && Inv(grown) && Legal(builder, right)
    requires MuxFanins(builder.rows, right) == Some((i, shared, b)) && LegalKey(grown, MuxKey(i, shared, b))
    ensures Resolve(grown, MuxKey(i, shared, b), origin) == Step(grown, Ok(right))
  {
    hide Size, Levelled, WellFormed;
    assert KeyOf(builder.rows[right.node]) == Some(MuxKey(i, shared, b));
  }

  // ----- the family with the shared arm last -----

  /** As `Nested`, with the shared arm taken when `i` is false; the detour then ends at
      the multiplexer of `a` and `shared` under `i`. */
  predicate NestedLast(store: Store, s: Lit, left: Lit, right: Lit, i: Lit, shared: Lit, inner: Lit, j: Lit, a: Lit,
                       b: Lit)
  {
    && MuxFanins(store.rows, left) == Some((i, inner, shared))
    && MuxFanins(store.rows, right) == Some((i, b, shared))
    && MuxFanins(store.rows, inner) == Some((j, a, b))
    && CanonicalMux(s, left, right) && CanonicalMux(s, inner, b) && CanonicalMux(i, a, b) && CanonicalMux(i, a, shared)
    && Uncollapsed(store.rows, s, left, right) && Uncollapsed(store.rows, s, inner, b)
    && Uncollapsed(store.rows, i, a, b)
    && Irreducible(store.rows, i, a, shared)
    && i != j
  }

  lemma NestedLastSteps(store: Store, s: Lit, left: Lit, right: Lit, i: Lit, shared: Lit, inner: Lit, j: Lit, a: Lit,
                        b: Lit, origin: nat)
    requires store.mode.Building? && Inv(store) && Reduced(store.rows)
    requires Legal(store, s) && Legal(store, left) && Legal(store, right)
    requires NestedLast(store, s, left, right, i, shared, inner, j, a, b)
    requires Legal(store, j) && BuildAnd(store, s, j, origin) == Step(store, Ok(i))
    ensures Legal(store, i) && Legal(store, a) && Legal(store, b) && Legal(store, shared)
    ensures var first := Resolve(store, MuxKey(i, a, b), origin);
            BuildMux(store, s, left, right, origin) ==
              if first.answer.Err? then first
              else BuildMux(first.store, i, first.answer.lit, shared, origin)
  {
    hide Inv, Size, Reduced, Resolve, BuildAnd, BuildOr;
    StoredMux(store, store, left);
    StoredMux(store, store, right);
    StoredMux(store, store, inner);
    var w := Weight(store, s) + Weight(store, left) + Weight(store, right);
    MuxArmsWeight(store, left, right);
    MuxArmsWeight(store, inner, b);
    IrreducibleMux(store, i, a, b, origin);
    assert Unfactored(store.rows, left, right);
    ToFactor(store, s, left, right, origin);
    ToFactor(store, s, inner, b, origin);
    InnerFactor(store, s, inner, i, j, a, b, origin);
    var first := BuildMux(store, s, inner, b, origin);
    assert MuxFactor(store, s, left, right, origin) == MuxShare(store, s, left, right, origin);
    assert MuxShare(store, s, left, right, origin) == Continue(store, first, AsThen(i, shared), origin, w);
    if first.answer.Ok? {
      WeightKept(store, first.store, i);
      WeightKept(store, first.store, shared);
    }
  }

  /** On this family the call settles exactly when the inner multiplexer is present or
      the one where the detour ends is missing. */
  lemma NestedLastSettles(builder: Store, probe: Store, s: Lit, left: Lit, right: Lit, i: Lit, shared: Lit, inner: Lit,
                          j: Lit, a: Lit, b: Lit, origin: nat)
    requires Views(builder, probe) && Legal(builder, s) && Legal(builder, left) && Legal(builder, right)
    requires Legal(builder, j)
    requires NestedLast(builder, s, left, right, i, shared, inner, j, a, b)
    requires BuildAnd(builder, s, j, origin) == Step(builder, Ok(i))
    ensures var step := BuildMux(builder, s, left, right, origin);
            var found := BuildMux(probe, s, left, right, 0);
            step.answer.Ok? ==>
              ((found.answer.Err? <==> step.answer.lit.node >= |builder.rows|) <==>
                 MuxKey(i, a, b) in builder.index || MuxKey(i, a, shared) !in builder.index)
  {
    hide Inv, Size, Reduced, BuildMux, BuildAnd, IsIndexOf, Resolve, Irreducible;
    NestedLastSteps(builder, s, left, right, i, shared, inner, j, a, b, origin);
    StoredMux(builder, builder, left);
    StoredMux(builder, builder, right);
    StoredMux(builder, builder, inner);
    var key := MuxKey(i, a, b);
    var first := Resolve(builder, key, origin);
    MuxFirst(builder, probe, s, left, right, origin);
    KeyLookup(builder, key, origin);
    KeyEnds(builder, key, MuxKey(i, a, shared), origin);
    if first.answer.Ok? {
      OnToShared(builder, first.store, left, inner, i, shared, a, b, first.answer.lit, origin);
    }
  }

  /** Allocating one key makes no other key present. */
  lemma KeyEnds(builder: Store, key: Key, other: Key, origin: nat)
    requires builder.mode.Building? && Inv(builder) && LegalKey(builder, key)
    ensures var first := Resolve(builder, key, origin);
            (other in builder.index <==> other in first.store.index) || other == key
    ensures other in builder.index ==> builder.index[other] < |builder.rows|
  {
    hide Size, WellFormed, Levelled;
  }

  /** Around the multiplexer of `a` and `b` under `i`, the arm `a` meets the shared arm. */
  lemma OnToShared(builder: Store, grown: Store, left: Lit, inner: Lit, i: Lit, shared: Lit, a: Lit, b: Lit, r: Lit,
                   origin: nat)
    requires builder.mode.Building? && Inv(builder) && Reduced(builder.rows) && Extends(builder, grown) && Inv(grown)
    requires MuxFanins(builder.rows, left) == Some((i, inner, shared)) && a.node < |builder.rows|
    requires Legal(grown, i) && Legal(grown, shared) && Legal(grown, a) && Legal(grown, r) && !r.inverted
    requires MuxFanins(grown.rows, r) == Some((i, a, b)) && CanonicalMux(i, a, b)
    requires CanonicalMux(i, a, shared) && Irreducible(builder.rows, i, a, shared)
    requires grown == builder || r.node >= |builder.rows|
    requires MuxKey(i, a, shared) in grown.index <==> MuxKey(i, a, shared) in builder.index
    ensures var step := BuildMux(grown, i, r, shared, origin);
            && (grown == builder ==> Settles(builder, step))
            && (grown != builder && step.answer.Ok? ==>
                  (step.answer.lit.node >= |builder.rows| <==> MuxKey(i, a, shared) !in builder.index))
  {
    hide Size, Levelled, Irreducible, BuildMux, BuildXor, Resolve;
    StoredMux(builder, grown, left);
    ArmsBelow(grown, r);
    if shared.node == r.node {
      LastSelect(grown.rows, i, inner, shared, r);
      AppendsXor(grown, i, r.Not(), origin);
      ComplementArmsLast(grown, i, r, origin);
    } else {
      var key := MuxKey(i, a, shared);
      CollapseThen(grown, i, r, shared, a, inner, origin);
      IrreducibleKept(builder.rows, grown.rows, i, a, shared);
      IrreducibleMux(grown, i, a, shared, origin);
      AppendsResolve(grown, key, origin);
      KeyFound(builder, grown, key, origin);
    }
  }

  lemma KeyFound(builder: Store, grown: Store, key: Key, origin: nat)
    requires builder.mode.Building? && Inv(builder) && Extends(builder, grown) && Inv(grown) && LegalKey(grown, key)
    requires key in grown.index <==> key in builder.index
    ensures var step := Resolve(grown, key, origin);
            step.answer.Ok? ==> (step.answer.lit.node >= |builder.rows| <==> key !in builder.index)
  {
    hide Size, WellFormed, Levelled;
  }

  lemma LastSelect(rows: seq<Row>, i: Lit, t: Lit, e: Lit, r: Lit)
    requires Irreducible(rows, i, t, e) && MuxFanins(rows, r).Some? && MuxFanins(rows, r).value.0 == i
    ensures e != r
  {
  }

  lemma ComplementArmsLast(store: Store, i: Lit, r: Lit, origin: nat)
    requires Inv(store) && Legal(store, i) && Legal(store, r) && !i.inverted && !i.IsConstant() && !r.inverted
    requires !r.IsConstant()
    ensures BuildMux(store, i, r, r.Not(), origin) == BuildXor(store, i, r.Not(), origin)
  {
    hide Inv, Size, BuildXor;
    assert BuildMux(store, i, r, r.Not(), origin) == MuxReduce(store, i, r, r.Not(), origin);
  }

  lemma CollapseThen(store: Store, i: Lit, r: Lit, shared: Lit, a: Lit, inner: Lit, origin: nat)
    requires Inv(store) && Legal(store, i) && Legal(store, shared) && Legal(store, r) && Legal(store, a)
    requires CanonicalMux(i, r, shared) && Irreducible(store.rows, i, inner, shared)
    requires MuxFanins(store.rows, r).Some? && MuxFanins(store.rows, r).value.0 == i
    requires MuxFanins(store.rows, r).value.1 == a
    requires a.node < r.node
    ensures BuildMux(store, i, r, shared, origin) == BuildMux(store, i, a, shared, origin)
  {
    hide Inv, Size, BuildMux;
    assert Collapsed(store, i, r, shared) == (a, shared);
    CollapsesTo(store, i, r, shared, origin);
  }

  // ----- a reachable member -----

  function In(n: nat): Lit { Lit(n, false) }

  /** Inputs 1..5 (s, i, x, b, c), then s & i, i ? x : b, and two multiplexers
      that choose between c and the latter, or between c and b, under s & i. */
  const OPS: seq<Op> :=
    [InputOp(1), InputOp(2), InputOp(3), InputOp(4), InputOp(5),
     AndOp(In(1), In(2), 0), MuxOp(In(2), In(3), In(4), 0),
     MuxOp(In(6), In(5), In(7), 0), MuxOp(In(6), In(5), In(4), 0)]

  const ROWS: seq<Row> :=
    [Row(Constant, FALSE, FALSE, FALSE, 0, 0),
     Row(Input, FALSE, FALSE, FALSE, 0, 1), Row(Input, FALSE, FALSE, FALSE, 0, 2),
     Row(Input, FALSE, FALSE, FALSE, 0, 3), Row(Input, FALSE, FALSE, FALSE, 0, 4),
     Row(Input, FALSE, FALSE, FALSE, 0, 5),
     Row(And, In(1), In(2), FALSE, 1, 0),
     Row(Mux, In(2), In(3), In(4), 1, 0),
     Row(Mux, In(6), In(5), In(7), 2, 0),
     Row(Mux, In(6), In(5), In(4), 2, 0)]

  const INDEX: map<Key, nat> :=
    map[AndKey(In(1), In(2)) := 6, MuxKey(In(2), In(3), In(4)) := 7,
        MuxKey(In(6), In(5), In(7)) := 8, MuxKey(In(6), In(5), In(4)) := 9]

  /** The builder after `k` of the operations. */
  function Stage(k: nat): Store
    requires k <= 9
  {
    Store(Building, ROWS[..k + 1], map key | key in INDEX && INDEX[key] <= k :: INDEX[key])
  }

  lemma StageZero()
    ensures Stage(0) == EMPTY && Inv(EMPTY) && Reduced(EMPTY.rows)
  {
    assert LevelAbove(EMPTY.rows, 0);
  }

  lemma StageInput(k: nat)
    requires k < 5 && Inv(Stage(k))
    ensures LegalOp(Stage(k), OPS[k]) && Apply(Stage(k), OPS[k]).store == Stage(k + 1)
  {
    hide Inv;
    assert ROWS[..k + 2] == ROWS[..k + 1] + [ROWS[k + 1]];
    assert Stage(k).index == map[] && Stage(k + 1).index == map[];
  }

  lemma StageAnd()
    requires Inv(Stage(5))
    ensures LegalOp(Stage(5), OPS[5]) && Apply(Stage(5), OPS[5]).store == Stage(6)
  {
    hide Inv, Size;
    var store, key := Stage(5), AndKey(In(1), In(2));
    assert ROWS[..7] == ROWS[..6] + [ROWS[6]];
    assert BuildAnd(store, In(1), In(2), 0) == Resolve(store, key, 0);
    assert key !in store.index && Stage(6).index == store.index[key := 6];
    assert RowFor(store.rows, key, 0) == ROWS[6];
  }

  /** An irreducible multiplexer is appended as it stands. */
  lemma StageMux(k: nat, s: Lit, t: Lit, e: Lit)
    requires 6 <= k < 9 && Inv(Stage(k)) && OPS[k] == MuxOp(s, t, e, 0) && Legal(Stage(k), s) && Legal(Stage(k), t)
    requires Legal(Stage(k), e)
    requires CanonicalMux(s, t, e) && Irreducible(Stage(k).rows, s, t, e)
    requires RowFor(Stage(k).rows, MuxKey(s, t, e), 0) == ROWS[k + 1]
    requires MuxKey(s, t, e) !in Stage(k).index && Stage(k + 1).index == Stage(k).index[MuxKey(s, t, e) := k + 1]
    ensures LegalOp(Stage(k), OPS[k]) && Apply(Stage(k), OPS[k]).store == Stage(k + 1)
  {
    hide Inv, Size, BuildMux, Irreducible;
    var store := Stage(k);
    assert ROWS[..k + 2] == ROWS[..k + 1] + [ROWS[k + 1]];
    IrreducibleMux(store, s, t, e, 0);
  }

  lemma StageStep(k: nat)
    requires k < 9 && Inv(Stage(k))
    ensures LegalOp(Stage(k), OPS[k]) && Apply(Stage(k), OPS[k]).store == Stage(k + 1)
  {
    hide Inv, Size, Apply, LegalOp, Stage;
    if k < 5 {
      StageInput(k);
    } else if k == 5 {
      StageAnd();
    } else if k == 6 {
      StageSix();
    } else if k == 7 {
      StageSeven();
    } else {
      StageEight();
    }
  }

  lemma StageSix()
    requires Inv(Stage(6))
    ensures LegalOp(Stage(6), OPS[6]) && Apply(Stage(6), OPS[6]).store == Stage(7)
  {
    hide Inv, Size, Apply;
    StageMux(6, In(2), In(3), In(4));
  }

  lemma StageSeven()
    requires Inv(Stage(7))
    ensures LegalOp(Stage(7), OPS[7]) && Apply(Stage(7), OPS[7]).store == Stage(8)
  {
    hide Inv, Size, Apply;
    StageMux(7, In(6), In(5), In(7));
  }

  lemma StageEight()
    requires Inv(Stage(8))
    ensures LegalOp(Stage(8), OPS[8]) && Apply(Stage(8), OPS[8]).store == Stage(9)
  {
    hide Inv, Size, Apply;
    StageMux(8, In(6), In(5), In(4));
  }

  lemma {:induction false} StageRun(k: nat)
    requires k <= 9 && Inv(Stage(k)) && Reduced(Stage(k).rows)
    ensures LegalRun(Stage(k), OPS[k..]) && Run(Stage(k), OPS[k..]) == Stage(9) && Reduced(Stage(9).rows)
    decreases 9 - k
  {
    hide Inv, Apply, LegalOp, Reduced, Stage;
    StageBuilds(k);
    if k < 9 {
      StageStep(k);
      ApplyReduced(Stage(k), OPS[k]);
      assert OPS[k..][0] == OPS[k] && OPS[k..][1..] == OPS[k + 1..];
      StageRun(k + 1);
    }
  }

  lemma StageBuilds(k: nat)
    requires k <= 9
    ensures Stage(k).mode.Building?
  {
  }

  /** The nine operations lead a new builder there. */
  lemma Reached()
    ensures LegalRun(EMPTY, OPS) && Run(EMPTY, OPS) == Stage(9) && Inv(Stage(9)) && Reduced(Stage(9).rows)
  {
    hide Inv, Run, LegalRun, Reduced, Stage;
    StageZero();
    StageRun(0);
    assert OPS[0..] == OPS;
  }

  lemma PairFound(origin: nat)
    requires Inv(Stage(9))
    ensures BuildAnd(Stage(9), In(1), In(2), origin) == Step(Stage(9), Ok(In(6)))
  {
    hide Inv, Size;
    assert BuildAnd(Stage(9), In(1), In(2), origin) == Resolve(Stage(9), AndKey(In(1), In(2)), origin);
  }

  lemma StageNested()
    ensures Nested(Stage(9), In(1), In(8), In(9), In(6), In(5), In(7), In(2), In(3), In(4))
    ensures MuxKey(In(6), In(3), In(4)) !in Stage(9).index
  {
  }

  /** On a network a builder reaches, the probe reports a key absent although the
      builder answers with a node the network has. */
  lemma MissingKeyOfPresentNode(index: map<Key, nat>, origin: nat)
    requires IsIndexOf(Stage(9).rows, index)
    ensures LegalRun(EMPTY, OPS) && Run(EMPTY, OPS) == Stage(9) && Inv(Stage(9)) && Inv(Frozen(Stage(9), index))
    ensures BuildMux(Frozen(Stage(9), index), In(1), In(8), In(9), 0).answer.Err?
    ensures BuildMux(Stage(9), In(1), In(8), In(9), origin).answer == Ok(In(9)) && 9 < |Stage(9).rows|
  {
    hide Inv, Run, Reduced, BuildMux, BuildAnd, IsIndexOf, Size, Nested, DirectMux;
    Reached();
    var builder := Stage(9);
    FrozenCovers(builder, index);
    PairFound(origin);
    StageNested();
    NestedSettles(builder, Frozen(builder, index), In(1), In(8), In(9), In(6), In(5), In(7), In(2), In(3), In(4),
        origin);
  }
}
