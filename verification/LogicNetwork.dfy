/** Boolean networks with complemented edges: literals, node rows, structural
    keys, well-formedness, and the value and unfolded size of every node. */
module LogicNetwork {
  import opened Lists

  /** A literal packs a node ID and a phase bit into 32 bits, so only nodes
      below this bound can be referenced by an edge. */
  const LITERAL_NODES: nat := 0x8000_0000

  /** Node IDs are 32-bit arena indices. */
  const NODE_IDS: nat := 0x1_0000_0000

  datatype Lit = Lit(node: nat, inverted: bool) {
    function Not(): Lit { Lit(node, !inverted) }

    function Positive(): Lit { Lit(node, false) }

    /** The packed representation, which is what literals are ordered by. */
    function Raw(): nat { 2 * node + if inverted then 1 else 0 }

    predicate IsConstant() { node == 0 }
  }

  const FALSE: Lit := Lit(0, false)
  const TRUE: Lit := Lit(0, true)

  function WithPhase(value: Lit, inverted: bool): Lit {
    if inverted then value.Not() else value
  }

  datatype NodeKind = Constant | Input | And | Xor | Mux {
    function Arity(): nat {
      match this
      case Constant | Input => 0
      case And | Xor => 2
      case Mux => 3
    }
  }

  datatype Row = Row(kind: NodeKind, fanin0: Lit, fanin1: Lit, fanin2: Lit, level: nat, origin: nat)

  datatype Key =
    | AndKey(left: Lit, right: Lit)
    | XorKey(left: Lit, right: Lit)
    | MuxKey(select: Lit, whenTrue: Lit, whenFalse: Lit)

  function KeyOf(row: Row): Option<Key> {
    match row.kind
    case And => Some(AndKey(row.fanin0, row.fanin1))
    case Xor => Some(XorKey(row.fanin0, row.fanin1))
    case Mux => Some(MuxKey(row.fanin0, row.fanin1, row.fanin2))
    case _ => None
  }

  // ----- canonical form -----

  /** AND operands are ordered, non-constant, and neither equal nor complementary. */
  predicate CanonicalAnd(left: Lit, right: Lit) {
    left.Raw() < right.Raw() && !left.IsConstant() && !right.IsConstant() && left.node != right.node
  }

  /** XOR operands additionally carry no phase. */
  predicate CanonicalXor(left: Lit, right: Lit) {
    CanonicalAnd(left, right) && !left.inverted && !right.inverted
  }

  /** A MUX select is a positive non-constant literal; its arms are neither
      constant, nor the select in either phase, nor equal, nor complementary,
      nor both inverted. */
  predicate CanonicalMux(select: Lit, whenTrue: Lit, whenFalse: Lit) {
    && !select.inverted && !select.IsConstant()
    && !whenTrue.IsConstant() && !whenFalse.IsConstant()
    && whenTrue.node != select.node && whenFalse.node != select.node
    && whenTrue.node != whenFalse.node
    && !(whenTrue.inverted && whenFalse.inverted)
  }

  predicate CanonicalKey(key: Key) {
    match key
    case AndKey(left, right) => CanonicalAnd(left, right)
    case XorKey(left, right) => CanonicalXor(left, right)
    case MuxKey(select, whenTrue, whenFalse) => CanonicalMux(select, whenTrue, whenFalse)
  }

  // ----- well-formed arenas -----

  /** Every fanin of a gate is an earlier, addressable node. */
  predicate Below(l: Lit, n: nat) {
    l.node < n && l.node < LITERAL_NODES
  }

  predicate GoodRow(row: Row, n: nat) {
    && (row.kind.Constant? <==> n == 0)
    && (row.kind.Arity() >= 2 ==> Below(row.fanin0, n) && Below(row.fanin1, n))
    && (row.kind.Mux? ==> Below(row.fanin2, n))
    && (KeyOf(row).Some? ==> CanonicalKey(KeyOf(row).value))
  }

  predicate WellFormed(rows: seq<Row>) {
    && 0 < |rows| <= NODE_IDS
    && forall n :: 0 <= n < |rows| ==> GoodRow(rows[n], n)
  }

  // ----- levels -----

  function Max(a: nat, b: nat): nat { if a < b then b else a }

  /** The level a row gets from the levels of its fanins; foreign fanins are skipped. */
  function LevelFrom(rows: seq<Row>, l: Lit): nat {
    if l.node < |rows| then rows[l.node].level else 0
  }

  function LevelOf(rows: seq<Row>, kind: NodeKind, f0: Lit, f1: Lit, f2: Lit): nat {
    match kind
    case Constant | Input => 0
    case And | Xor => 1 + Max(LevelFrom(rows, f0), LevelFrom(rows, f1))
    case Mux => 1 + Max(LevelFrom(rows, f0), Max(LevelFrom(rows, f1), LevelFrom(rows, f2)))
  }

  /** A gate sits strictly above each of its fanins, and no level reaches its own index. */
  predicate Levelled(rows: seq<Row>) {
    forall n :: 0 <= n < |rows| ==> LevelAbove(rows, n)
  }

  predicate LevelAbove(rows: seq<Row>, n: nat)
    requires n < |rows|
  {
    var row := rows[n];
    && row.level <= n
    && (row.kind.Arity() >= 2 && row.fanin0.node < n ==> rows[row.fanin0.node].level < row.level)
    && (row.kind.Arity() >= 2 && row.fanin1.node < n ==> rows[row.fanin1.node].level < row.level)
    && (row.kind.Mux? && row.fanin2.node < n ==> rows[row.fanin2.node].level < row.level)
  }

  // ----- meaning -----

  /** An environment assigns a Boolean to every boundary origin. */
  type Env = nat -> bool

  /** The value of node `n`. Literals outside the arena read as false. */
  function Value(rows: seq<Row>, env: Env, n: nat): bool
    decreases n
  {
    if n >= |rows| then false else
    var row := rows[n];
    var a := (if row.fanin0.node < n then Value(rows, env, row.fanin0.node) else false) != row.fanin0.inverted;
    var b := (if row.fanin1.node < n then Value(rows, env, row.fanin1.node) else false) != row.fanin1.inverted;
    var c := (if row.fanin2.node < n then Value(rows, env, row.fanin2.node) else false) != row.fanin2.inverted;
    match row.kind
    case Constant => false
    case Input => env(row.origin)
    case And => a && b
    case Xor => a != b
    case Mux => if a then b else c
  }

  function LitValue(rows: seq<Row>, env: Env, l: Lit): bool {
    Value(rows, env, l.node) != l.inverted
  }

  lemma {:induction false} ValuePrefix(rows: seq<Row>, rows': seq<Row>, env: Env, n: nat)
    requires rows <= rows' && n < |rows|
    ensures Value(rows', env, n) == Value(rows, env, n)
    decreases n
  {
    var row := rows[n];
    assert rows'[n] == row;
    if row.fanin0.node < n { ValuePrefix(rows, rows', env, row.fanin0.node); }
    if row.fanin1.node < n { ValuePrefix(rows, rows', env, row.fanin1.node); }
    if row.fanin2.node < n { ValuePrefix(rows, rows', env, row.fanin2.node); }
  }

  // ----- unfolded size -----

  /** Number of nodes in the expression tree below node `n`. */
  function Size(rows: seq<Row>, n: nat): (size: nat)
    ensures size >= 1
    decreases n
  {
    if n >= |rows| then 1 else
    var row := rows[n];
    var a := if row.fanin0.node < n then Size(rows, row.fanin0.node) else 1;
    var b := if row.fanin1.node < n then Size(rows, row.fanin1.node) else 1;
    var c := if row.fanin2.node < n then Size(rows, row.fanin2.node) else 1;
    match row.kind
    case Constant | Input => 1
    case And | Xor => 1 + a + b
    case Mux => 1 + a + b + c
  }

  lemma {:induction false} SizePrefix(rows: seq<Row>, rows': seq<Row>, n: nat)
    requires rows <= rows' && n < |rows|
    ensures Size(rows', n) == Size(rows, n)
    decreases n
  {
    var row := rows[n];
    assert rows'[n] == row;
    if row.fanin0.node < n { SizePrefix(rows, rows', row.fanin0.node); }
    if row.fanin1.node < n { SizePrefix(rows, rows', row.fanin1.node); }
    if row.fanin2.node < n { SizePrefix(rows, rows', row.fanin2.node); }
  }
}
