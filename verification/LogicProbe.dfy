/** The read-only probe of a frozen network answers exactly the operations for
    which the builder would allocate nothing, and with the builder's literal. */
module LogicProbe {
  import opened Lists
  import opened LogicNetwork
  import opened Canonical
  import opened CanonicalReplay

  /** `index` maps every structural key of `rows` to the last row that has it. */
  predicate IsIndexOf(rows: seq<Row>, index: map<Key, nat>) {
    && (forall key :: key in index ==> Indexed(rows, key, index[key]))
    && (forall n :: 0 <= n < |rows| && KeyOf(rows[n]).Some? ==>
          KeyOf(rows[n]).value in index && n <= index[KeyOf(rows[n]).value])
  }

  /** Rebuilds the structural hash table of a frozen network. */
  method StructuralIndex(rows: seq<Row>) returns (index: map<Key, nat>)
    requires |rows| <= NODE_IDS
    ensures IsIndexOf(rows, index)
  {
    index := map[];
    for n := 0 to |rows|
      invariant IsIndexOf(rows[..n], index)
    {
      assert rows[..n + 1] == rows[..n] + [rows[n]];
      match KeyOf(rows[n]) {
        case Some(key) => index := index[key := n];
        case None =>
      }
    }
    assert rows[..|rows|] == rows;
  }

  function Frozen(builder: Store, index: map<Key, nat>): Store {
    Store(Probing, builder.rows, index)
  }

  /** The rebuilt index finds the same addressable nodes as the builder's intern table. */
  lemma FrozenCovers(builder: Store, index: map<Key, nat>)
    requires builder.mode.Building? && Inv(builder) && IsIndexOf(builder.rows, index)
    ensures Inv(Frozen(builder, index))
    ensures Covers(builder, Frozen(builder, index)) && Covers(Frozen(builder, index), builder)
    ensures builder.index == map key | key in index && index[key] < LITERAL_NODES :: index[key]
  {
    forall key | key in builder.index
      ensures key in index && index[key] == builder.index[key]
    {
      var n := builder.index[key];
      assert KeyOf(builder.rows[n]) == Some(key);
      assert KeyOf(builder.rows[index[key]]) == Some(key);
    }
    forall key | key in index && index[key] < LITERAL_NODES
      ensures key in builder.index && builder.index[key] == index[key]
    {
      assert KeyOf(builder.rows[index[key]]) == Some(key);
    }
  }

  lemma ProbeAnd(builder: Store, index: map<Key, nat>, left: Lit, right: Lit, origin: nat, l: Lit)
    requires builder.mode.Building? && Inv(builder) && IsIndexOf(builder.rows, index)
    requires Legal(builder, left) && Legal(builder, right)
    ensures Inv(Frozen(builder, index))
    ensures BuildAnd(Frozen(builder, index), left, right, 0).answer == Ok(l)
       <==> BuildAnd(builder, left, right, origin) == Step(builder, Ok(l))
  {
    hide Inv, BuildAnd;
    FrozenCovers(builder, index);
    var probe := Frozen(builder, index);
    if BuildAnd(probe, left, right, 0).answer == Ok(l) { ReplayAnd(probe, builder, left, right, 0, origin); }
    if BuildAnd(builder, left, right, origin) == Step(builder, Ok(l)) {
      ReplayAnd(builder, probe, left, right, origin, 0);
    }
  }

  lemma ProbeOr(builder: Store, index: map<Key, nat>, left: Lit, right: Lit, origin: nat, l: Lit)
    requires builder.mode.Building? && Inv(builder) && IsIndexOf(builder.rows, index)
    requires Legal(builder, left) && Legal(builder, right)
    ensures Inv(Frozen(builder, index))
    ensures BuildOr(Frozen(builder, index), left, right, 0).answer == Ok(l)
       <==> BuildOr(builder, left, right, origin) == Step(builder, Ok(l))
  {
    hide Inv, BuildOr;
    FrozenCovers(builder, index);
    var probe := Frozen(builder, index);
    if BuildOr(probe, left, right, 0).answer == Ok(l) { ReplayOr(probe, builder, left, right, 0, origin); }
    if BuildOr(builder, left, right, origin) == Step(builder, Ok(l)) {
      ReplayOr(builder, probe, left, right, origin, 0);
    }
  }

  lemma ProbeXor(builder: Store, index: map<Key, nat>, left: Lit, right: Lit, origin: nat, l: Lit)
    requires builder.mode.Building? && Inv(builder) && IsIndexOf(builder.rows, index)
    requires Legal(builder, left) && Legal(builder, right)
    ensures Inv(Frozen(builder, index))
    ensures BuildXor(Frozen(builder, index), left, right, 0).answer == Ok(l)
       <==> BuildXor(builder, left, right, origin) == Step(builder, Ok(l))
  {
    hide Inv, BuildXor;
    FrozenCovers(builder, index);
    var probe := Frozen(builder, index);
    if BuildXor(probe, left, right, 0).answer == Ok(l) { ReplayXor(probe, builder, left, right, 0, origin); }
    if BuildXor(builder, left, right, origin) == Step(builder, Ok(l)) {
      ReplayXor(builder, probe, left, right, origin, 0);
    }
  }

  lemma ProbeMux(builder: Store, index: map<Key, nat>, select: Lit, t: Lit, e: Lit, origin: nat, l: Lit)
    requires builder.mode.Building? && Inv(builder) && IsIndexOf(builder.rows, index)
    requires Legal(builder, select) && Legal(builder, t) && Legal(builder, e)
    ensures Inv(Frozen(builder, index))
    ensures BuildMux(Frozen(builder, index), select, t, e, 0).answer == Ok(l)
       <==> BuildMux(builder, select, t, e, origin) == Step(builder, Ok(l))
  {
    hide Inv, BuildMux;
    FrozenCovers(builder, index);
    var probe := Frozen(builder, index);
    if BuildMux(probe, select, t, e, 0).answer == Ok(l) { ReplayMux(probe, builder, select, t, e, 0, origin); }
    if BuildMux(builder, select, t, e, origin) == Step(builder, Ok(l)) {
      ReplayMux(builder, probe, select, t, e, origin, 0);
    }
  }
}
