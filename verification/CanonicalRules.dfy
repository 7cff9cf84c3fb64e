/** The rewrite rules read off the rows: which operands each operation must recognise,
    and what it then answers. */
module CanonicalRules {
  import opened Lists
  import opened LogicNetwork
  import opened Canonical
  import opened CanonicalReduced
  import opened CanonicalSymmetry

  /** The positive literal `l` names a gate with fanins `f` and `g`, in either order. */
  predicate Gate(rows: seq<Row>, l: Lit, kind: NodeKind, f: Lit, g: Lit) {
    && !l.inverted && l.node < |rows| && rows[l.node].kind == kind
    && ((rows[l.node].fanin0 == f && rows[l.node].fanin1 == g)
        || (rows[l.node].fanin0 == g && rows[l.node].fanin1 == f))
  }

  // ----- conjunction -----

  /** Constants, equal and complementary operands need no node. */
  lemma AndTrivial(store: Store, l: Lit, r: Lit, origin: nat)
    requires Inv(store) && Legal(store, l) && Legal(store, r)
    ensures l == FALSE || r == FALSE || l == r.Not() ==> BuildAnd(store, l, r, origin) == Step(store, Ok(FALSE))
    ensures l == TRUE || l == r ==> BuildAnd(store, l, r, origin) == Step(store, Ok(r))
    ensures r == TRUE ==> BuildAnd(store, l, r, origin) == Step(store, Ok(l))
  {
    hide Inv, Size, Resolve;
  }

  /** A product absorbs each of its factors: (f & g) & f is f & g. */
  lemma AndFactor(store: Store, l: Lit, f: Lit, g: Lit, origin: nat)
    requires Inv(store) && Legal(store, l) && Legal(store, f) && Gate(store.rows, l, And, f, g)
    ensures BuildAnd(store, l, f, origin) == Step(store, Ok(l))
    ensures BuildAnd(store, f, l, origin) == Step(store, Ok(l))
  {
    hide Size, Resolve, Levelled, Interned;
    assert GoodRow(store.rows[l.node], l.node);
    FactorFeeds(store.rows, l, f);
    if f.node < |store.rows| { NoMutualFactor(store, l, f); }
  }

  lemma NoMutualFactor(store: Store, l: Lit, f: Lit)
    requires Inv(store) && Feeds(store.rows, f, l, And)
    ensures !Feeds(store.rows, l, f, And) && f.node < l.node && !l.inverted && !l.IsConstant() && !f.IsConstant()
  {
    assert GoodRow(store.rows[l.node], l.node);
    if f.node < |store.rows| { assert GoodRow(store.rows[f.node], f.node); }
  }

  /** A literal implies the complement of a product of its own complement: x & !(!x & g) is x. */
  lemma AndComplement(store: Store, x: Lit, p: Lit, g: Lit, origin: nat)
    requires Inv(store) && Legal(store, x) && Legal(store, p) && Gate(store.rows, p, And, x.Not(), g)
    ensures BuildAnd(store, x, p.Not(), origin) == Step(store, Ok(x))
    ensures BuildAnd(store, p.Not(), x, origin) == Step(store, Ok(x))
  {
    hide Size, Resolve, Levelled, Interned;
    assert GoodRow(store.rows[p.node], p.node);
    FactorFeeds(store.rows, p, x.Not());
  }

  /** Any other conjunction is looked up under its ordered operands. */
  lemma AndOtherwise(store: Store, l: Lit, r: Lit, origin: nat)
    requires Inv(store) && Legal(store, l) && Legal(store, r)
    requires !l.IsConstant() && !r.IsConstant() && l.node != r.node && Unabsorbed(store.rows, l, r)
    ensures var key := if l.Raw() < r.Raw() then AndKey(l, r) else AndKey(r, l);
            BuildAnd(store, l, r, origin) == Resolve(store, key, origin)
  {
    hide Inv, Size, Resolve, BinaryFanins;
    FactorFeeds(store.rows, l, r);
    FactorFeeds(store.rows, r, l);
    FactorFeeds(store.rows, r.Not(), l.Not());
    FactorFeeds(store.rows, l.Not(), r.Not());
  }

  // ----- disjunction -----

  /** The products (s & x) | (!s & y) are the multiplexer s ? x : y. */
  lemma OrOfProducts(store: Store, left: Lit, right: Lit, s: Lit, x: Lit, y: Lit, origin: nat)
    requires store.mode.Building? && Inv(store) && Legal(store, left) && Legal(store, right)
    requires Gate(store.rows, left, And, s, x) && Gate(store.rows, right, And, s.Not(), y)
    ensures Legal(store, s) && Legal(store, x) && Legal(store, y)
    ensures BuildOr(store, left, right, origin) == BuildMux(store, s, x, y, origin)
  {
    hide Size, BuildMux, Levelled, Interned;
    assert GoodRow(store.rows[left.node], left.node) && GoodRow(store.rows[right.node], right.node);
    if y == x.Not() && OrFactor(store, left, right) != Some((s, x, y)) {
      OtherSelect(store, s, x, origin);
    }
  }

  /** With both pairs complementary, either literal may serve as the select. */
  lemma OtherSelect(store: Store, s: Lit, x: Lit, origin: nat)
    requires store.mode.Building? && Inv(store) && Legal(store, s) && Legal(store, x)
    requires !s.IsConstant() && !x.IsConstant() && s.node != x.node
    ensures BuildMux(store, s, x, x.Not(), origin) == BuildMux(store, x, s, s.Not(), origin)
  {
    hide Inv, Size, BuildMux, BuildXor;
    MuxIsXor(store, s, x, origin);
    MuxIsXor(store, x, s, origin);
    XorCommutes(store, s, x.Not(), origin);
    XorPhases(store, x.Not(), s, origin);
    XorPhases(store, x, s.Not(), origin);
  }

  lemma MuxIsXor(store: Store, s: Lit, x: Lit, origin: nat)
    requires Inv(store) && Legal(store, s) && Legal(store, x) && !s.IsConstant() && !x.IsConstant() && s.node != x.node
    ensures BuildMux(store, s, x, x.Not(), origin) == BuildXor(store, s, x.Not(), origin)
  {
    hide Inv, Size, XorPositive;
    if s.inverted {
      assert BuildMux(store, s, x, x.Not(), origin) == MuxReduce(store, s.Not(), x.Not(), x, origin);
    } else {
      assert BuildMux(store, s, x, x.Not(), origin) == MuxReduce(store, s, x, x.Not(), origin);
    }
  }

  /** Phases of an exclusive-or move to its result. */
  lemma XorPhases(store: Store, l: Lit, r: Lit, origin: nat)
    requires Inv(store) && Legal(store, l) && Legal(store, r)
    requires !l.IsConstant() && !r.IsConstant() && l.node != r.node
    ensures BuildXor(store, l, r, origin)
         == BuildXor(store, l.Positive(), r.Positive(), origin).Phase(l.inverted != r.inverted)
  {
    hide Inv, Size, XorPositive;
  }

  /** Operands that are not such products go through De Morgan's law. */
  lemma OrOtherwise(store: Store, left: Lit, right: Lit, origin: nat)
    requires Inv(store) && Legal(store, left) && Legal(store, right)
    requires forall s: Lit, x: Lit, y: Lit ::
               Gate(store.rows, left, And, s, x) ==> !Gate(store.rows, right, And, s.Not(), y)
    ensures BuildOr(store, left, right, origin) == BuildAnd(store, left.Not(), right.Not(), origin).Phase(true)
  {
    hide Inv, Size, BuildMux, BuildAnd;
    if OrFactor(store, left, right).Some? { FactorGates(store, left, right); }
  }

  lemma FactorGates(store: Store, left: Lit, right: Lit)
    requires OrFactor(store, left, right).Some?
    ensures var (s, x, y) := OrFactor(store, left, right).value;
            Gate(store.rows, left, And, s, x) && Gate(store.rows, right, And, s.Not(), y)
  {
  }

  // ----- exclusive-or -----

  /** Constants, equal and complementary operands need no node. */
  lemma XorTrivial(store: Store, l: Lit, r: Lit, origin: nat)
    requires Inv(store) && Legal(store, l) && Legal(store, r)
    ensures l.IsConstant() ==> BuildXor(store, l, r, origin) == Step(store, Ok(WithPhase(r, l.inverted)))
    ensures r.IsConstant() ==> BuildXor(store, l, r, origin) == Step(store, Ok(WithPhase(l, r.inverted)))
    ensures l.node == r.node ==> BuildXor(store, l, r, origin) == Step(store, Ok(Lit(0, l.inverted != r.inverted)))
  {
    hide Inv, Size, XorPositive;
  }

  /** A term cancels: (f ^ g) ^ f is g. */
  lemma XorCancels(store: Store, l: Lit, f: Lit, g: Lit, origin: nat)
    requires Inv(store) && Legal(store, l) && Legal(store, f) && Gate(store.rows, l, Xor, f, g)
    ensures BuildXor(store, l, f, origin) == Step(store, Ok(g))
    ensures BuildXor(store, f, l, origin) == Step(store, Ok(g))
  {
    hide Size, Resolve, Levelled, Interned;
    assert GoodRow(store.rows[l.node], l.node);
    if f.node < |store.rows| { assert GoodRow(store.rows[f.node], f.node); }
  }

  /** A shared term cancels: (f ^ g) ^ (f ^ h) is g ^ h. */
  lemma XorShares(store: Store, l: Lit, r: Lit, f: Lit, g: Lit, h: Lit, origin: nat)
    requires Inv(store) && Legal(store, l) && Legal(store, r) && l != r
    requires Gate(store.rows, l, Xor, f, g) && Gate(store.rows, r, Xor, f, h) && g != h
    requires !Feeds(store.rows, r, l, Xor) && !Feeds(store.rows, l, r, Xor)
    ensures Legal(store, g) && Legal(store, h)
    ensures BuildXor(store, l, r, origin) == BuildXor(store, g, h, origin)
  {
    hide Size, Resolve, Levelled, Interned, BuildXor;
    assert GoodRow(store.rows[l.node], l.node) && GoodRow(store.rows[r.node], r.node);
    ParityShared(store.rows, l, r, f, g, h);
    ToPositive(store, l, r, origin);
    assert XorPositive(store, l, r, origin) == BuildXor(store, g, h, origin);
  }

  lemma ParityShared(rows: seq<Row>, l: Lit, r: Lit, f: Lit, g: Lit, h: Lit)
    requires Gate(rows, l, Xor, f, g) && Gate(rows, r, Xor, f, h) && g != h && f != g && f != h
    requires !Feeds(rows, r, l, Xor) && !Feeds(rows, l, r, Xor)
    ensures ParityOf(rows, l, r) == Shared(g, h)
  {
  }

  lemma ToPositive(store: Store, l: Lit, r: Lit, origin: nat)
    requires Inv(store) && Legal(store, l) && Legal(store, r)
    requires !l.inverted && !r.inverted && !l.IsConstant() && !r.IsConstant() && l != r
    ensures BuildXor(store, l, r, origin) == XorPositive(store, l, r, origin)
  {
    hide Inv, Size, XorPositive;
  }

  /** Positive operands without a common term are looked up in order. */
  lemma XorOtherwise(store: Store, l: Lit, r: Lit, origin: nat)
    requires Inv(store) && Legal(store, l) && Legal(store, r)
    requires !l.inverted && !r.inverted && !l.IsConstant() && !r.IsConstant() && l != r && Uncancelled(store.rows, l, r)
    ensures var key := if l.Raw() < r.Raw() then XorKey(l, r) else XorKey(r, l);
            BuildXor(store, l, r, origin) == Resolve(store, key, origin)
  {
    hide Inv, Size, Resolve, ParityOf, Uncancelled;
    ParityFeeds(store.rows, l, r);
    ToPositive(store, l, r, origin);
  }

  // ----- multiplexer -----

  /** A constant select, or equal arms, need no node; constant arms give the select. */
  lemma MuxTrivial(store: Store, s: Lit, t: Lit, e: Lit, origin: nat)
    requires Inv(store) && Legal(store, s) && Legal(store, t) && Legal(store, e)
    ensures s.IsConstant() ==> BuildMux(store, s, t, e, origin) == Step(store, Ok(if s.inverted then t else e))
    ensures t == e ==> BuildMux(store, s, t, e, origin) == Step(store, Ok(t))
    ensures !s.IsConstant() && t.IsConstant() && e == t.Not() ==>
              BuildMux(store, s, t, e, origin) == Step(store, Ok(WithPhase(s, e.inverted)))
  {
    hide Inv, Size, MuxReduce;
  }

  /** A complemented select swaps the arms, and a phase common to both arms moves to the result. */
  lemma MuxPhases(store: Store, s: Lit, t: Lit, e: Lit, origin: nat)
    requires Inv(store) && Legal(store, s) && Legal(store, t) && Legal(store, e)
    ensures BuildMux(store, s.Not(), t, e, origin) == BuildMux(store, s, e, t, origin)
    ensures t.inverted && e.inverted && t != e && !s.IsConstant() ==>
              BuildMux(store, s, t, e, origin) == BuildMux(store, s, t.Not(), e.Not(), origin).Phase(true)
  {
    hide Inv, Size, MuxReduce;
  }

  /** Under a positive select, an arm that is constant, the select or the other arm's
      complement leaves a conjunction, a disjunction or an exclusive-or. */
  lemma MuxReduces(store: Store, s: Lit, t: Lit, e: Lit, origin: nat)
    requires Inv(store) && Legal(store, s) && Legal(store, t) && Legal(store, e)
    requires Normal(s, t, e) && !(t.IsConstant() && e.IsConstant())
    ensures t == e.Not() ==> BuildMux(store, s, t, e, origin) == BuildXor(store, s, e, origin)
    ensures t != e.Not() && (t == TRUE || t == s) ==>
              BuildMux(store, s, t, e, origin) == BuildOr(store, s, e, origin)
    ensures t != e.Not() && (t == FALSE || t == s.Not()) ==>
              BuildMux(store, s, t, e, origin) == BuildAnd(store, s.Not(), e, origin)
    ensures t.node != s.node && !t.IsConstant() && (e == FALSE || e == s) ==>
              BuildMux(store, s, t, e, origin) == BuildAnd(store, s, t, origin)
    ensures t.node != s.node && !t.IsConstant() && (e == TRUE || e == s.Not()) ==>
              BuildMux(store, s, t, e, origin) == BuildOr(store, s.Not(), t, origin)
  {
    hide Inv, Size, BuildAnd, BuildOr, BuildXor, MuxCollapse;
    assert BuildMux(store, s, t, e, origin) == MuxReduce(store, s, t, e, origin);
  }

  /** The positive literal `l` names the multiplexer s ? t : e. */
  predicate MuxGate(rows: seq<Row>, l: Lit, s: Lit, t: Lit, e: Lit) {
    && !l.inverted && l.node < |rows| && rows[l.node].kind.Mux?
    && rows[l.node].fanin0 == s && rows[l.node].fanin1 == t && rows[l.node].fanin2 == e
  }

  lemma ArmsLegal(store: Store, l: Lit, i: Lit, a: Lit, b: Lit)
    requires Inv(store) && MuxGate(store.rows, l, i, a, b)
    ensures Legal(store, i) && Legal(store, a) && Legal(store, b) && CanonicalMux(i, a, b)
    ensures i.node < l.node && a.node < l.node && b.node < l.node
    ensures MuxFanins(store.rows, l) == Some((i, a, b))
  {
    assert GoodRow(store.rows[l.node], l.node);
  }

  /** A nested multiplexer under the same select gives way to its arm. */
  lemma MuxCollapses(store: Store, s: Lit, m: Lit, a: Lit, b: Lit, other: Lit, origin: nat)
    requires Inv(store) && Legal(store, s) && Legal(store, m) && Legal(store, other) && MuxGate(store.rows, m, s, a, b)
    requires forall c: Lit, d: Lit :: !MuxGate(store.rows, other, s, c, d)
    ensures Legal(store, a) && Legal(store, b)
    ensures CanonicalMux(s, m, other) ==> BuildMux(store, s, m, other, origin) == BuildMux(store, s, a, other, origin)
    ensures CanonicalMux(s, other, m) ==> BuildMux(store, s, other, m, origin) == BuildMux(store, s, other, b, origin)
  {
    hide Inv, Size, BuildMux;
    ArmsLegal(store, m, s, a, b);
    if MuxFanins(store.rows, other).Some? {
      var (i, c, d) := MuxFanins(store.rows, other).value;
      assert MuxGate(store.rows, other, i, c, d);
    }
    if CanonicalMux(s, m, other) { Collapses(store, s, m, other, origin); }
    if CanonicalMux(s, other, m) { Collapses(store, s, other, m, origin); }
  }

  /** With both arms under the same select, each gives way to its own arm. */
  lemma MuxCollapsesBoth(store: Store, s: Lit, m: Lit, n: Lit, a: Lit, b: Lit, c: Lit, d: Lit, origin: nat)
    requires Inv(store) && Legal(store, s) && Legal(store, m) && Legal(store, n) && CanonicalMux(s, m, n)
    requires MuxGate(store.rows, m, s, a, b) && MuxGate(store.rows, n, s, c, d)
    ensures Legal(store, a) && Legal(store, d)
    ensures BuildMux(store, s, m, n, origin) == BuildMux(store, s, a, d, origin)
  {
    hide Inv, Size, BuildMux;
    ArmsLegal(store, m, s, a, b);
    ArmsLegal(store, n, s, c, d);
    Collapses(store, s, m, n, origin);
  }

  lemma Collapses(store: Store, s: Lit, t: Lit, e: Lit, origin: nat)
    requires Inv(store) && Legal(store, s) && Legal(store, t) && Legal(store, e)
    requires CanonicalMux(s, t, e) && Collapsed(store, s, t, e) != (t, e)
    ensures var (t', e') := Collapsed(store, s, t, e);
            && Legal(store, t') && Legal(store, e')
            && BuildMux(store, s, t, e, origin) == BuildMux(store, s, t', e', origin)
  {
    hide Inv, Size;
    CollapsedWeight(store, s, t, e);
    assert BuildMux(store, s, t, e, origin) == MuxReduce(store, s, t, e, origin);
    assert MuxReduce(store, s, t, e, origin) == MuxCollapse(store, s, t, e, origin);
  }

  /** s ? (i ? a : b) : b is (s & i) ? a : b. */
  lemma MuxMergesAnd(store: Store, s: Lit, m: Lit, i: Lit, a: Lit, b: Lit, origin: nat)
    requires Inv(store) && Legal(store, s) && Legal(store, m) && MuxGate(store.rows, m, i, a, b)
    requires Legal(store, b) && CanonicalMux(s, m, b) && Uncollapsed(store.rows, s, m, b)
    ensures Legal(store, i) && Legal(store, a)
    ensures var first := BuildAnd(store, s, i, origin);
            && (first.answer.Ok? ==> Legal(first.store, a) && Legal(first.store, b))
            && BuildMux(store, s, m, b, origin) ==
               if first.answer.Err? then first else BuildMux(first.store, first.answer.lit, a, b, origin)
  {
    hide Inv, Size, BuildMux, BuildAnd, BuildOr;
    ArmsLegal(store, m, i, a, b);
    MuxArmsWeight(store, m, b);
    Uncollapses(store, s, m, b, origin);
    var first := BuildAnd(store, s, i, origin);
    SelectKept(store, first, a, b);
  }

  /** s ? (i ? a : b) : a is (!s | i) ? a : b. */
  lemma MuxMergesOr(store: Store, s: Lit, m: Lit, i: Lit, a: Lit, b: Lit, origin: nat)
    requires Inv(store) && Legal(store, s) && Legal(store, m) && MuxGate(store.rows, m, i, a, b)
    requires Legal(store, a) && CanonicalMux(s, m, a) && Uncollapsed(store.rows, s, m, a)
    ensures Legal(store, i) && Legal(store, b)
    ensures var first := BuildOr(store, s.Not(), i, origin);
            && (first.answer.Ok? ==> Legal(first.store, a) && Legal(first.store, b))
            && BuildMux(store, s, m, a, origin) ==
               if first.answer.Err? then first else BuildMux(first.store, first.answer.lit, a, b, origin)
  {
    hide Inv, Size, BuildMux, BuildAnd, BuildOr;
    ArmsLegal(store, m, i, a, b);
    MuxArmsWeight(store, m, a);
    Uncollapses(store, s, m, a, origin);
    var first := BuildOr(store, s.Not(), i, origin);
    SelectKept(store, first, a, b);
  }

  /** s ? a : (i ? a : b) is (s | i) ? a : b, where the then-arm does not merge first. */
  lemma MuxMergesElseOr(store: Store, s: Lit, m: Lit, i: Lit, a: Lit, b: Lit, origin: nat)
    requires Inv(store) && Legal(store, s) && Legal(store, m) && MuxGate(store.rows, m, i, a, b)
    requires Legal(store, a) && CanonicalMux(s, a, m) && Uncollapsed(store.rows, s, a, m)
    ensures Legal(store, i) && Legal(store, b)
    ensures var first := BuildOr(store, s, i, origin);
            && (first.answer.Ok? ==> Legal(first.store, a) && Legal(first.store, b))
            && BuildMux(store, s, a, m, origin) ==
               if first.answer.Err? then first else BuildMux(first.store, first.answer.lit, a, b, origin)
  {
    hide Inv, Size, BuildMux, BuildAnd, BuildOr;
    ArmsLegal(store, m, i, a, b);
    NotAnArm(store, a, m);
    MuxArmsWeight(store, a, m);
    Uncollapses(store, s, a, m, origin);
    var first := BuildOr(store, s, i, origin);
    SelectKept(store, first, a, b);
  }

  /** s ? b : (i ? a : b) is (!s & i) ? a : b. */
  lemma MuxMergesElseAnd(store: Store, s: Lit, m: Lit, i: Lit, a: Lit, b: Lit, origin: nat)
    requires Inv(store) && Legal(store, s) && Legal(store, m) && MuxGate(store.rows, m, i, a, b)
    requires Legal(store, b) && CanonicalMux(s, b, m) && Uncollapsed(store.rows, s, b, m)
    ensures Legal(store, i) && Legal(store, a)
    ensures var first := BuildAnd(store, s.Not(), i, origin);
            && (first.answer.Ok? ==> Legal(first.store, a) && Legal(first.store, b))
            && BuildMux(store, s, b, m, origin) ==
               if first.answer.Err? then first else BuildMux(first.store, first.answer.lit, a, b, origin)
  {
    hide Inv, Size, BuildMux, BuildAnd, BuildOr;
    ArmsLegal(store, m, i, a, b);
    NotAnArm(store, b, m);
    MuxArmsWeight(store, b, m);
    Uncollapses(store, s, b, m, origin);
    var first := BuildAnd(store, s.Not(), i, origin);
    SelectKept(store, first, a, b);
  }

  /** An older literal has no later one among its arms. */
  lemma NotAnArm(store: Store, earlier: Lit, later: Lit)
    requires Inv(store) && earlier.node < later.node
    ensures MuxFanins(store.rows, earlier).Some? ==>
              MuxFanins(store.rows, earlier).value.1 != later && MuxFanins(store.rows, earlier).value.2 != later
  {
    if MuxFanins(store.rows, earlier).Some? { assert GoodRow(store.rows[earlier.node], earlier.node); }
  }

  lemma SelectKept(store: Store, first: Step, a: Lit, b: Lit)
    requires Extends(store, first.store) && Legal(store, a) && Legal(store, b)
    ensures Legal(first.store, a) && Legal(first.store, b)
  {
  }

  lemma Uncollapses(store: Store, s: Lit, t: Lit, e: Lit, origin: nat)
    requires Inv(store) && Legal(store, s) && Legal(store, t) && Legal(store, e)
    requires CanonicalMux(s, t, e) && Uncollapsed(store.rows, s, t, e)
    ensures BuildMux(store, s, t, e, origin) == MuxFactor(store, s, t, e, origin)
  {
    hide Inv, Size, MuxFactor;
    assert BuildMux(store, s, t, e, origin) == MuxReduce(store, s, t, e, origin);
    assert MuxReduce(store, s, t, e, origin) == MuxCollapse(store, s, t, e, origin);
  }

  /** s ? (i ? c : a) : (i ? c : b) is i ? c : (s ? a : b). */
  lemma MuxSharesThen(store: Store, s: Lit, t: Lit, e: Lit, i: Lit, c: Lit, a: Lit, b: Lit, origin: nat)
    requires Inv(store) && Legal(store, s) && Legal(store, t) && Legal(store, e)
    requires MuxGate(store.rows, t, i, c, a) && MuxGate(store.rows, e, i, c, b)
    requires CanonicalMux(s, t, e) && Uncollapsed(store.rows, s, t, e) && Unfactored(store.rows, t, e)
    ensures Legal(store, i) && Legal(store, a) && Legal(store, b) && Legal(store, c)
    ensures var first := BuildMux(store, s, a, b, origin);
            && (first.answer.Ok? ==> Legal(first.store, i) && Legal(first.store, c))
            && BuildMux(store, s, t, e, origin) ==
               if first.answer.Err? then first else BuildMux(first.store, i, c, first.answer.lit, origin)
  {
    hide Inv, Size, BuildMux, BuildAnd, BuildOr;
    ArmsLegal(store, t, i, c, a);
    ArmsLegal(store, e, i, c, b);
    MuxArmsWeight(store, t, e);
    Uncollapses(store, s, t, e, origin);
    var first, w := BuildMux(store, s, a, b, origin), Weight(store, s) + Weight(store, t) + Weight(store, e);
    SelectKept(store, first, i, c);
    assert MuxFactor(store, s, t, e, origin) == MuxShare(store, s, t, e, origin);
    assert MuxShare(store, s, t, e, origin) == Continue(store, first, AsElse(i, c), origin, w);
  }

  /** s ? (i ? a : c) : (i ? b : c) is i ? (s ? a : b) : c. */
  lemma MuxSharesElse(store: Store, s: Lit, t: Lit, e: Lit, i: Lit, c: Lit, a: Lit, b: Lit, origin: nat)
    requires Inv(store) && Legal(store, s) && Legal(store, t) && Legal(store, e)
    requires MuxGate(store.rows, t, i, a, c) && MuxGate(store.rows, e, i, b, c) && a != b
    requires CanonicalMux(s, t, e) && Uncollapsed(store.rows, s, t, e) && Unfactored(store.rows, t, e)
    ensures Legal(store, i) && Legal(store, a) && Legal(store, b) && Legal(store, c)
    ensures var first := BuildMux(store, s, a, b, origin);
            && (first.answer.Ok? ==> Legal(first.store, i) && Legal(first.store, c))
            && BuildMux(store, s, t, e, origin) ==
               if first.answer.Err? then first else BuildMux(first.store, i, first.answer.lit, c, origin)
  {
    hide Inv, Size, BuildMux, BuildAnd, BuildOr;
    ArmsLegal(store, t, i, a, c);
    ArmsLegal(store, e, i, b, c);
    MuxArmsWeight(store, t, e);
    Uncollapses(store, s, t, e, origin);
    var first, w := BuildMux(store, s, a, b, origin), Weight(store, s) + Weight(store, t) + Weight(store, e);
    SelectKept(store, first, i, c);
    assert MuxFactor(store, s, t, e, origin) == MuxShare(store, s, t, e, origin);
    assert MuxShare(store, s, t, e, origin) == Continue(store, first, AsThen(i, c), origin, w);
  }
}
