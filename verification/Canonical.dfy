/** The canonicalisation rules, shared by the allocating builder and the
    read-only probe. A store threads through every rule as a value; the two
    kinds of store differ only in what `Resolve` does with a missing key. */
module Canonical {
  import opened Lists
  import opened LogicNetwork

  datatype Mode = Building | Probing

  /** `index` is the builder's intern table, or the structural index of a frozen network. */
  datatype Store = Store(mode: Mode, rows: seq<Row>, index: map<Key, nat>)

  datatype Failure = Capacity | Absent

  datatype Answer = Ok(lit: Lit) | Err(failure: Failure)

  datatype Step = Step(store: Store, answer: Answer) {
    function Phase(inverted: bool): Step {
      if answer.Ok? then Step(store, Ok(WithPhase(answer.lit, inverted))) else this
    }
  }

  // ----- stores -----

  predicate Indexed(rows: seq<Row>, key: Key, n: nat) {
    n < |rows| && KeyOf(rows[n]) == Some(key)
  }

  /** A builder's intern table holds exactly the addressable gates, one per key;
      a row left behind by a capacity failure shares no key with them. */
  predicate Interned(store: Store) {
    && (forall key :: key in store.index ==> store.index[key] < LITERAL_NODES)
    && (forall n :: 0 <= n < |store.rows| && n < LITERAL_NODES && KeyOf(store.rows[n]).Some? ==>
          KeyOf(store.rows[n]).value in store.index && store.index[KeyOf(store.rows[n]).value] == n)
    && (forall n :: LITERAL_NODES <= n < |store.rows| && KeyOf(store.rows[n]).Some? ==>
          KeyOf(store.rows[n]).value !in store.index)
  }

  predicate Inv(store: Store) {
    && WellFormed(store.rows)
    && Levelled(store.rows)
    && (forall key :: key in store.index ==> Indexed(store.rows, key, store.index[key]))
    && (store.mode.Building? ==> Interned(store))
  }

  /** Literals handed to a builder belong to it; a probe may be asked about foreign ones. */
  predicate Legal(store: Store, l: Lit) {
    l.node < LITERAL_NODES && (store.mode.Building? ==> l.node < |store.rows|)
  }

  /** What every operation keeps: rows are only appended and keys never move. */
  predicate Extends(store: Store, store': Store) {
    && store'.mode == store.mode
    && store.rows <= store'.rows
    && (forall key :: key in store.index ==> key in store'.index && store'.index[key] == store.index[key])
    && (store.mode.Probing? ==> store' == store)
  }

  function Weight(store: Store, l: Lit): (w: nat)
    ensures w >= 1
  {
    Size(store.rows, l.node)
  }

  /** The contract of every operation on operands of total weight `w`. */
  predicate Kept(store: Store, w: nat, step: Step) {
    && Inv(step.store)
    && Extends(store, step.store)
    && (step.answer.Ok? ==> Legal(step.store, step.answer.lit) && Weight(step.store, step.answer.lit) <= 1 + w)
    && (step.answer.Err? ==> (step.answer.failure.Capacity? <==> store.mode.Building?))
    && (step.answer.Err? && store.mode.Building? ==> Full(step.store))
  }

  /** No further node can be addressed. A builder fails for no other reason. */
  predicate Full(store: Store) {
    |store.rows| > LITERAL_NODES
  }

  lemma WeightKept(store: Store, store': Store, l: Lit)
    requires Extends(store, store') && Legal(store, l)
    ensures Legal(store', l) && Weight(store', l) == Weight(store, l)
  {
    if l.node < |store.rows| { SizePrefix(store.rows, store'.rows, l.node); }
  }

  // ----- allocation -----

  function RowFor(rows: seq<Row>, key: Key, origin: nat): Row {
    match key
    case AndKey(l, r) => Row(And, l, r, FALSE, LevelOf(rows, And, l, r, FALSE), origin)
    case XorKey(l, r) => Row(Xor, l, r, FALSE, LevelOf(rows, Xor, l, r, FALSE), origin)
    case MuxKey(s, t, e) => Row(Mux, s, t, e, LevelOf(rows, Mux, s, t, e), origin)
  }

  predicate LegalKey(store: Store, key: Key) {
    && CanonicalKey(key)
    && match key
       case AndKey(l, r) => Legal(store, l) && Legal(store, r)
       case XorKey(l, r) => Legal(store, l) && Legal(store, r)
       case MuxKey(s, t, e) => Legal(store, s) && Legal(store, t) && Legal(store, e)
  }

  function KeyWeight(store: Store, key: Key): nat {
    match key
    case AndKey(l, r) => Weight(store, l) + Weight(store, r)
    case XorKey(l, r) => Weight(store, l) + Weight(store, r)
    case MuxKey(s, t, e) => Weight(store, s) + Weight(store, t) + Weight(store, e)
  }

  /** Appends one row. The row stays even when its index no longer fits a literal. */
  function Push(store: Store, row: Row): Step {
    if |store.rows| >= NODE_IDS then Step(store, Err(Capacity)) else
    var store' := store.(rows := store.rows + [row]);
    Step(store', if |store.rows| < LITERAL_NODES then Ok(Lit(|store.rows|, false)) else Err(Capacity))
  }

  /** Finds the node of a canonical key; a missing key is allocated by a builder
      and reported absent by a probe. */
  function Resolve(store: Store, key: Key, origin: nat): (step: Step)
    requires Inv(store) && LegalKey(store, key)
    ensures Kept(store, KeyWeight(store, key), step)
  {
    if key in store.index then
      var n := store.index[key];
      HitWeight(store, key);
      if n < LITERAL_NODES then Step(store, Ok(Lit(n, false)))
      else Step(store, Err(if store.mode.Building? then Capacity else Absent))
    else if store.mode.Probing? then Step(store, Err(Absent))
    else
      var pushed := Push(store, RowFor(store.rows, key, origin));
      PushKeeps(store, key, origin);
      if pushed.answer.Ok? then
        Step(pushed.store.(index := pushed.store.index[key := pushed.answer.lit.node]), pushed.answer)
      else pushed
  }

  lemma HitWeight(store: Store, key: Key)
    requires Inv(store) && key in store.index
    ensures Weight(store, Lit(store.index[key], false)) == 1 + KeyWeight(store, key)
  {
    var row := store.rows[store.index[key]];
    assert GoodRow(row, store.index[key]);
  }

  lemma LevelsKept(store: Store, key: Key, origin: nat)
    requires Inv(store) && LegalKey(store, key) && store.mode.Building?
    ensures Levelled(store.rows + [RowFor(store.rows, key, origin)])
  {
    hide Interned, CanonicalKey;
    var rows := store.rows;
    var rows' := rows + [RowFor(rows, key, origin)];
    forall n | 0 <= n < |rows'|
      ensures LevelAbove(rows', n)
    {
      if n < |rows| {
        assert LevelAbove(rows, n) && GoodRow(rows[n], n);
        LevelsBelow(rows, rows', n);
      } else {
        NewLevel(rows, key, origin);
      }
    }
  }

  lemma LevelsBelow(rows: seq<Row>, rows': seq<Row>, n: nat)
    requires rows <= rows' && n < |rows| && LevelAbove(rows, n)
    ensures LevelAbove(rows', n)
  {
  }

  lemma NewLevel(rows: seq<Row>, key: Key, origin: nat)
    requires Levelled(rows)
    requires match key
             case AndKey(l, r) => l.node < |rows| && r.node < |rows|
             case XorKey(l, r) => l.node < |rows| && r.node < |rows|
             case MuxKey(s, t, e) => s.node < |rows| && t.node < |rows| && e.node < |rows|
    ensures LevelAbove(rows + [RowFor(rows, key, origin)], |rows|)
  {
    match key
    case AndKey(l, r) => assert LevelAbove(rows, l.node) && LevelAbove(rows, r.node);
    case XorKey(l, r) => assert LevelAbove(rows, l.node) && LevelAbove(rows, r.node);
    case MuxKey(s, t, e) => assert LevelAbove(rows, s.node) && LevelAbove(rows, t.node) && LevelAbove(rows, e.node);
  }

  lemma PushKeeps(store: Store, key: Key, origin: nat)
    requires Inv(store) && LegalKey(store, key) && store.mode.Building? && key !in store.index
    ensures var pushed := Push(store, RowFor(store.rows, key, origin));
            var index' := if pushed.answer.Ok? then store.index[key := |store.rows|] else store.index;
            var store' := pushed.store.(index := index');
            && Inv(store') && Extends(store, store')
            && (pushed.answer.Ok? ==>
                  pushed.answer.lit == Lit(|store.rows|, false)
                  && Weight(store', pushed.answer.lit) == 1 + KeyWeight(store, key))
  {
    hide Size, Levelled, WellFormed, Interned, GoodRow;
    LevelsKept(store, key, origin);
    RowsKept(store, key, origin);
    InternedKept(store, key, origin);
    PushedWeight(store, key, origin);
  }

  lemma RowsKept(store: Store, key: Key, origin: nat)
    requires Inv(store) && LegalKey(store, key) && store.mode.Building?
    ensures |store.rows| < NODE_IDS ==> WellFormed(store.rows + [RowFor(store.rows, key, origin)])
  {
    hide Levelled, Interned;
  }

  lemma InternedKept(store: Store, key: Key, origin: nat)
    requires Interned(store) && key !in store.index
    ensures var rows' := store.rows + [RowFor(store.rows, key, origin)];
            && (|store.rows| < LITERAL_NODES ==>
                  Interned(store.(rows := rows', index := store.index[key := |store.rows|])))
            && (|store.rows| >= LITERAL_NODES ==> Interned(store.(rows := rows')))
  {
  }

  lemma PushedWeight(store: Store, key: Key, origin: nat)
    requires LegalKey(store, key) && store.mode.Building?
    ensures Size(store.rows + [RowFor(store.rows, key, origin)], |store.rows|) == 1 + KeyWeight(store, key)
  {
    var rows' := store.rows + [RowFor(store.rows, key, origin)];
    match key
    case AndKey(l, r) =>
      SizePrefix(store.rows, rows', l.node); SizePrefix(store.rows, rows', r.node);
    case XorKey(l, r) =>
      SizePrefix(store.rows, rows', l.node); SizePrefix(store.rows, rows', r.node);
    case MuxKey(s, t, e) =>
      SizePrefix(store.rows, rows', s.node); SizePrefix(store.rows, rows', t.node);
      SizePrefix(store.rows, rows', e.node);
  }

  /** A builder that holds only the shared constant. */
  const EMPTY: Store := Store(Building, [Row(Constant, FALSE, FALSE, FALSE, 0, 0)], map[])

  /** Appends an unconstrained input; inputs are never shared. */
  function BuildInput(store: Store, origin: nat): (step: Step)
    requires Inv(store) && store.mode.Building?
    ensures Inv(step.store) && Extends(store, step.store)
    ensures step.answer.Ok? ==> Legal(step.store, step.answer.lit)
    ensures if |store.rows| < LITERAL_NODES
            then step.answer == Ok(Lit(|store.rows|, false)) && |step.store.rows| == |store.rows| + 1
            else step.answer == Err(Capacity) && Full(step.store)
  {
    InputKeeps(store, origin);
    Push(store, Row(Input, FALSE, FALSE, FALSE, 0, origin))
  }

  lemma InputKeeps(store: Store, origin: nat)
    requires Inv(store) && store.mode.Building?
    ensures var step := Push(store, Row(Input, FALSE, FALSE, FALSE, 0, origin));
            Inv(step.store) && Extends(store, step.store)
  {
    var rows' := store.rows + [Row(Input, FALSE, FALSE, FALSE, 0, origin)];
    forall n | 0 <= n < |rows'|
      ensures LevelAbove(rows', n)
    {
      if n < |store.rows| { assert LevelAbove(store.rows, n); LevelsBelow(store.rows, rows', n); }
    }
  }

  // ----- structural views -----

  function BinaryFanins(rows: seq<Row>, value: Lit, kind: NodeKind): (f: Option<(Lit, Lit)>)
    ensures f.Some? <==> !value.inverted && value.node < |rows| && rows[value.node].kind == kind
  {
    if value.inverted || value.node >= |rows| || rows[value.node].kind != kind then None
    else Some((rows[value.node].fanin0, rows[value.node].fanin1))
  }

  function MuxFanins(rows: seq<Row>, value: Lit): (f: Option<(Lit, Lit, Lit)>)
    ensures f.Some? <==> !value.inverted && value.node < |rows| && rows[value.node].kind.Mux?
  {
    if value.inverted || value.node >= |rows| || rows[value.node].kind != Mux then None
    else Some((rows[value.node].fanin0, rows[value.node].fanin1, rows[value.node].fanin2))
  }

  function Ordered(left: Lit, right: Lit): (Lit, Lit) {
    if left.Raw() <= right.Raw() then (left, right) else (right, left)
  }

  function XorRemaining(fanins: (Lit, Lit), shared: Lit): Option<Lit> {
    if fanins.0 == shared then Some(fanins.1)
    else if fanins.1 == shared then Some(fanins.0)
    else None
  }

  function XorSharedRemaining(left: (Lit, Lit), right: (Lit, Lit)): Option<(Lit, Lit)> {
    match XorRemaining(right, left.0)
    case Some(remaining) => Some((left.1, remaining))
    case None =>
      match XorRemaining(right, left.1)
      case Some(remaining) => Some((left.0, remaining))
      case None => None
  }

  function ComplementaryProductFactor(left: (Lit, Lit), right: (Lit, Lit)): Option<(Lit, Lit, Lit)> {
    if right.0 == left.0.Not() then Some((left.0, left.1, right.1))
    else if right.1 == left.0.Not() then Some((left.0, left.1, right.0))
    else if right.0 == left.1.Not() then Some((left.1, left.0, right.1))
    else if right.1 == left.1.Not() then Some((left.1, left.0, right.0))
    else None
  }

  predicate HasFactor(fanins: Option<(Lit, Lit)>, l: Lit) {
    fanins.Some? && (fanins.value.0 == l || fanins.value.1 == l)
  }

  lemma GateWeight(store: Store, l: Lit)
    requires Inv(store) && l.node < |store.rows| && store.rows[l.node].kind.Arity() >= 2
    ensures var row := store.rows[l.node];
            && Legal(store, row.fanin0) && Legal(store, row.fanin1)
            && (row.kind.Mux? ==> Legal(store, row.fanin2))
            && Weight(store, l) == 1 + Weight(store, row.fanin0) + Weight(store, row.fanin1)
                                     + if row.kind.Mux? then Weight(store, row.fanin2) else 0
  {
    assert GoodRow(store.rows[l.node], l.node);
  }

  // ----- the rules -----

  function BuildAnd(store: Store, left: Lit, right: Lit, origin: nat): (step: Step)
    requires Inv(store) && Legal(store, left) && Legal(store, right)
    ensures Kept(store, Weight(store, left) + Weight(store, right), step)
  {
    hide Inv, Size, Resolve;
    if left == FALSE || right == FALSE || left == right.Not() then Step(store, Ok(FALSE))
    else if left == TRUE then Step(store, Ok(right))
    else if right == TRUE || left == right then Step(store, Ok(left))
    else if HasFactor(BinaryFanins(store.rows, left, And), right) then Step(store, Ok(left))
    else if HasFactor(BinaryFanins(store.rows, right, And), left) then Step(store, Ok(right))
    else if right.inverted && HasFactor(BinaryFanins(store.rows, right.Positive(), And), left.Not()) then
      Step(store, Ok(left))
    else if left.inverted && HasFactor(BinaryFanins(store.rows, left.Positive(), And), right.Not()) then
      Step(store, Ok(right))
    else
      var (l, r) := Ordered(left, right);
      Resolve(store, AndKey(l, r), origin)
  }

  function BuildOr(store: Store, left: Lit, right: Lit, origin: nat): (step: Step)
    requires Inv(store) && Legal(store, left) && Legal(store, right)
    ensures Kept(store, Weight(store, left) + Weight(store, right), step)
    decreases Weight(store, left) + Weight(store, right), 0
  {
    hide Inv, Size;
    match OrFactor(store, left, right)
    case Some((select, whenTrue, whenFalse)) =>
      OrFactorWeight(store, left, right);
      BuildMux(store, select, whenTrue, whenFalse, origin)
    case None => BuildAnd(store, left.Not(), right.Not(), origin).Phase(true)
  }

  /** The multiplexer hidden in a sum of two products with a complementary factor. */
  function OrFactor(store: Store, left: Lit, right: Lit): Option<(Lit, Lit, Lit)> {
    match (BinaryFanins(store.rows, left, And), BinaryFanins(store.rows, right, And))
    case (Some(l), Some(r)) => ComplementaryProductFactor(l, r)
    case _ => None
  }

  lemma OrFactorWeight(store: Store, left: Lit, right: Lit)
    requires Inv(store) && Legal(store, left) && Legal(store, right) && OrFactor(store, left, right).Some?
    ensures var (s, t, e) := OrFactor(store, left, right).value;
            && Legal(store, s) && Legal(store, t) && Legal(store, e)
            && Weight(store, s) + Weight(store, t) + Weight(store, e) < Weight(store, left) + Weight(store, right)
  {
    GateWeight(store, left);
    GateWeight(store, right);
  }

  function BuildXor(store: Store, left: Lit, right: Lit, origin: nat): (step: Step)
    requires Inv(store) && Legal(store, left) && Legal(store, right)
    ensures Kept(store, Weight(store, left) + Weight(store, right), step)
    decreases Weight(store, left) + Weight(store, right)
  {
    hide Inv, Size;
    if left == FALSE then Step(store, Ok(right))
    else if right == FALSE then Step(store, Ok(left))
    else if left == TRUE then Step(store, Ok(right.Not()))
    else if right == TRUE then Step(store, Ok(left.Not()))
    else if left == right then Step(store, Ok(FALSE))
    else if left == right.Not() then Step(store, Ok(TRUE))
    else
      var inverted := left.inverted != right.inverted;
      XorPositive(store, left.Positive(), right.Positive(), origin).Phase(inverted)
  }

  /** What two distinct positive operands have in common. */
  datatype Parity = Cancelled(remaining: Lit) | Shared(left: Lit, right: Lit) | Unrelated

  function ParityOf(rows: seq<Row>, left: Lit, right: Lit): Parity {
    var leftFanins := BinaryFanins(rows, left, Xor);
    var rightFanins := BinaryFanins(rows, right, Xor);
    if leftFanins.Some? && XorRemaining(leftFanins.value, right).Some? then
      Cancelled(XorRemaining(leftFanins.value, right).value)
    else if rightFanins.Some? && XorRemaining(rightFanins.value, left).Some? then
      Cancelled(XorRemaining(rightFanins.value, left).value)
    else if leftFanins.Some? && rightFanins.Some? then
      match XorSharedRemaining(leftFanins.value, rightFanins.value)
      case Some((l, r)) => Shared(l, r)
      case None => Unrelated
    else Unrelated
  }

  lemma ParityWeight(store: Store, left: Lit, right: Lit)
    requires Inv(store) && Legal(store, left) && Legal(store, right)
    ensures match ParityOf(store.rows, left, right)
            case Cancelled(l) => Legal(store, l) && Weight(store, l) <= Weight(store, left) + Weight(store, right)
            case Shared(l, r) =>
              && Legal(store, l) && Legal(store, r)
              && Weight(store, l) + Weight(store, r) < Weight(store, left) + Weight(store, right)
            case Unrelated => true
  {
    hide Inv, Size;
    if BinaryFanins(store.rows, left, Xor).Some? { GateWeight(store, left); }
    if BinaryFanins(store.rows, right, Xor).Some? { GateWeight(store, right); }
  }

  /** Exclusive-or of two distinct positive non-constant literals. */
  function XorPositive(store: Store, left: Lit, right: Lit, origin: nat): (step: Step)
    requires Inv(store) && Legal(store, left) && Legal(store, right)
    requires !left.inverted && !right.inverted && !left.IsConstant() && !right.IsConstant()
    requires left != right
    ensures Kept(store, Weight(store, left) + Weight(store, right), step)
    decreases Weight(store, left) + Weight(store, right), 0
  {
    hide Inv, Size, Resolve, ParityOf;
    ParityWeight(store, left, right);
    match ParityOf(store.rows, left, right)
    case Cancelled(l) => Step(store, Ok(l))
    case Shared(l, r) => BuildXor(store, l, r, origin)
    case Unrelated =>
      var (l, r) := Ordered(left, right);
      Resolve(store, XorKey(l, r), origin)
  }

  function BuildMux(store: Store, select: Lit, whenTrue: Lit, whenFalse: Lit, origin: nat): (step: Step)
    requires Inv(store) && Legal(store, select) && Legal(store, whenTrue) && Legal(store, whenFalse)
    ensures Kept(store, Weight(store, select) + Weight(store, whenTrue) + Weight(store, whenFalse), step)
    decreases Weight(store, select) + Weight(store, whenTrue) + Weight(store, whenFalse), 5
  {
    hide Inv, Size;
    if select == FALSE then Step(store, Ok(whenFalse))
    else if select == TRUE || whenTrue == whenFalse then Step(store, Ok(whenTrue))
    else if whenTrue == TRUE && whenFalse == FALSE then Step(store, Ok(select))
    else if whenTrue == FALSE && whenFalse == TRUE then Step(store, Ok(select.Not()))
    else
      var (t, e) := if select.inverted then (whenFalse, whenTrue) else (whenTrue, whenFalse);
      if t.inverted && e.inverted then
        MuxReduce(store, select.Positive(), t.Positive(), e.Positive(), origin).Phase(true)
      else
        MuxReduce(store, select.Positive(), t, e, origin)
  }

  /** Select and arms after phase normalisation. */
  predicate Normal(select: Lit, t: Lit, e: Lit) {
    !select.inverted && !select.IsConstant() && t != e && !(t.inverted && e.inverted)
  }

  /** Multiplexers that are really an exclusive-or, a conjunction or a disjunction. */
  function MuxReduce(store: Store, select: Lit, t: Lit, e: Lit, origin: nat): (step: Step)
    requires Inv(store) && Legal(store, select) && Legal(store, t) && Legal(store, e)
    requires Normal(select, t, e)
    ensures Kept(store, Weight(store, select) + Weight(store, t) + Weight(store, e), step)
    decreases Weight(store, select) + Weight(store, t) + Weight(store, e), 4
  {
    hide Inv, Size;
    if t == e.Not() then BuildXor(store, select, e, origin)
    else if t == TRUE || t == select then BuildOr(store, select, e, origin)
    else if t == FALSE || t == select.Not() then BuildAnd(store, select.Not(), e, origin)
    else if e == FALSE || e == select then BuildAnd(store, select, t, origin)
    else if e == TRUE || e == select.Not() then BuildOr(store, select.Not(), t, origin)
    else MuxCollapse(store, select, t, e, origin)
  }

  /** Nested multiplexers under the same select. */
  function MuxCollapse(store: Store, select: Lit, t: Lit, e: Lit, origin: nat): (step: Step)
    requires Inv(store) && Legal(store, select) && Legal(store, t) && Legal(store, e)
    requires CanonicalMux(select, t, e)
    ensures Kept(store, Weight(store, select) + Weight(store, t) + Weight(store, e), step)
    decreases Weight(store, select) + Weight(store, t) + Weight(store, e), 3
  {
    hide Inv, Size;
    var (t', e') := Collapsed(store, select, t, e);
    CollapsedWeight(store, select, t, e);
    if t' != t || e' != e then BuildMux(store, select, t', e', origin)
    else MuxFactor(store, select, t, e, origin)
  }

  function Collapsed(store: Store, select: Lit, t: Lit, e: Lit): (Lit, Lit) {
    var tm, em := MuxFanins(store.rows, t), MuxFanins(store.rows, e);
    (if tm.Some? && tm.value.0 == select then tm.value.1 else t,
     if em.Some? && em.value.0 == select then em.value.2 else e)
  }

  lemma CollapsedWeight(store: Store, select: Lit, t: Lit, e: Lit)
    requires Inv(store) && Legal(store, t) && Legal(store, e)
    ensures var (t', e') := Collapsed(store, select, t, e);
            && Legal(store, t') && Legal(store, e')
            && (t' == t || Weight(store, t') < Weight(store, t))
            && (e' == e || Weight(store, e') < Weight(store, e))
            && (MuxFanins(store.rows, t).Some? && MuxFanins(store.rows, t).value.0 == select ==> t' != t)
            && (MuxFanins(store.rows, e).Some? && MuxFanins(store.rows, e).value.0 == select ==> e' != e)
  {
    if MuxFanins(store.rows, t).Some? { GateWeight(store, t); }
    if MuxFanins(store.rows, e).Some? { GateWeight(store, e); }
  }

  /** An arm that is a multiplexer sharing one of its own arms with the other side. */
  function MuxFactor(store: Store, select: Lit, t: Lit, e: Lit, origin: nat): (step: Step)
    requires Inv(store) && Legal(store, select) && Legal(store, t) && Legal(store, e)
    requires CanonicalMux(select, t, e)
    ensures Kept(store, Weight(store, select) + Weight(store, t) + Weight(store, e), step)
    decreases Weight(store, select) + Weight(store, t) + Weight(store, e), 2
  {
    hide Inv, Size;
    MuxArmsWeight(store, t, e);
    var tm, em := MuxFanins(store.rows, t), MuxFanins(store.rows, e);
    var w := Weight(store, select) + Weight(store, t) + Weight(store, e);
    if tm.Some? && e == tm.value.2 then
      Continue(store, BuildAnd(store, select, tm.value.0, origin), AsSelect(tm.value.1, tm.value.2), origin, w)
    else if tm.Some? && e == tm.value.1 then
      Continue(store, BuildOr(store, select.Not(), tm.value.0, origin), AsSelect(tm.value.1, tm.value.2), origin, w)
    else if em.Some? && t == em.value.1 then
      Continue(store, BuildOr(store, select, em.value.0, origin), AsSelect(em.value.1, em.value.2), origin, w)
    else if em.Some? && t == em.value.2 then
      Continue(store, BuildAnd(store, select.Not(), em.value.0, origin), AsSelect(em.value.1, em.value.2), origin, w)
    else MuxShare(store, select, t, e, origin)
  }

  /** Two multiplexer arms under one select that share an arm; otherwise the node itself. */
  function MuxShare(store: Store, select: Lit, t: Lit, e: Lit, origin: nat): (step: Step)
    requires Inv(store) && Legal(store, select) && Legal(store, t) && Legal(store, e)
    requires CanonicalMux(select, t, e)
    ensures Kept(store, Weight(store, select) + Weight(store, t) + Weight(store, e), step)
    decreases Weight(store, select) + Weight(store, t) + Weight(store, e), 1
  {
    hide Inv, Size, Resolve;
    MuxArmsWeight(store, t, e);
    var tm, em := MuxFanins(store.rows, t), MuxFanins(store.rows, e);
    var w := Weight(store, select) + Weight(store, t) + Weight(store, e);
    if tm.Some? && em.Some? && tm.value.0 == em.value.0 && tm.value.1 == em.value.1 then
      Continue(store, BuildMux(store, select, tm.value.2, em.value.2, origin), AsElse(tm.value.0, tm.value.1), origin,
          w)
    else if tm.Some? && em.Some? && tm.value.0 == em.value.0 && tm.value.2 == em.value.2 then
      Continue(store, BuildMux(store, select, tm.value.1, em.value.1, origin), AsThen(tm.value.0, tm.value.2), origin,
          w)
    else Resolve(store, MuxKey(select, t, e), origin)
  }

  lemma MuxArmsWeight(store: Store, t: Lit, e: Lit)
    requires Inv(store) && Legal(store, t) && Legal(store, e)
    ensures var m := MuxFanins(store.rows, t);
            m.Some? ==> Legal(store, m.value.0) && Legal(store, m.value.1) && Legal(store, m.value.2)
                        && Weight(store, t) == 1 + Weight(store, m.value.0) + Weight(store, m.value.1) + Weight(store,
                            m.value.2)
    ensures var m := MuxFanins(store.rows, e);
            m.Some? ==> Legal(store, m.value.0) && Legal(store, m.value.1) && Legal(store, m.value.2)
                        && Weight(store, e) == 1 + Weight(store, m.value.0) + Weight(store, m.value.1) + Weight(store,
                            m.value.2)
  {
    if MuxFanins(store.rows, t).Some? { GateWeight(store, t); }
    if MuxFanins(store.rows, e).Some? { GateWeight(store, e); }
  }

  /** Where the literal produced by a first call goes in the multiplexer built next. */
  datatype Position =
    | AsSelect(left: Lit, right: Lit)
    | AsThen(left: Lit, right: Lit)
    | AsElse(left: Lit, right: Lit)
  {
    function Place(l: Lit): (Lit, Lit, Lit) {
      match this
      case AsSelect(t, e) => (l, t, e)
      case AsThen(s, e) => (s, l, e)
      case AsElse(s, t) => (s, t, l)
    }
  }

  /** Builds a multiplexer around the literal an earlier call has just produced;
      `w` bounds the weight of the whole rewrite. */
  function Continue(store: Store, first: Step, position: Position, origin: nat, w: nat): (step: Step)
    requires Ready(store, first, position, w)
    ensures Kept(store, w, step)
    decreases w, 0
  {
    hide Inv, Size;
    if first.answer.Err? then first else
    WeightKept(store, first.store, position.left);
    WeightKept(store, first.store, position.right);
    var (s, t, e) := position.Place(first.answer.lit);
    BuildMux(first.store, s, t, e, origin)
  }

  predicate Ready(store: Store, first: Step, position: Position, w: nat) {
    && Inv(store) && Legal(store, position.left) && Legal(store, position.right)
    && Inv(first.store) && Extends(store, first.store)
    && (first.answer.Ok? ==>
          && Legal(first.store, first.answer.lit)
          && Weight(first.store, first.answer.lit) + Weight(store, position.left) + Weight(store, position.right) < w)
    && (first.answer.Err? ==> (first.answer.failure.Capacity? <==> store.mode.Building?))
    && (first.answer.Err? && store.mode.Building? ==> Full(first.store))
  }
}
