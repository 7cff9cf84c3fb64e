/** The flat post-order arena of an archive: what serialisation writes, which
    documents are accepted, and what reading them back yields. */
module Archive {

  const FORMAT_VERSION: nat := 1
  const MAX_NESTING_DEPTH: nat := 128

  datatype Scalar =
    | Bool(b: bool)
    | Signed(bits: nat, i: int)
    | Unsigned(bits: nat, n: nat)
    | Float(bits: nat, pattern: nat)
    | Char(c: char)
    | String(s: string)
    | Bytes(bytes: seq<bv8>)
    | NoneValue
    | Unit
    | UnitVariant(variant: nat)

  /** What a node is, apart from its children. */
  datatype Tag =
    | ScalarTag(scalar: Scalar)
    | SomeTag
    | SequenceTag
    | MapTag
    | NewtypeVariantTag(variant: nat)
    | SequenceVariantTag(variant: nat)

  datatype Tree = Tree(tag: Tag, children: seq<Tree>)
  datatype Node = Node(tag: Tag, children: seq<nat>)
  datatype Document = Document(version: nat, root: nat, nodes: seq<Node>)

  // ----- trees -----

  function Size(t: Tree): (n: nat)
    ensures n >= 1
    decreases t, 0
  {
    1 + SizeAll(t.children)
  }

  function SizeAll(ts: seq<Tree>): nat
    decreases ts, 0
  {
    if ts == [] then 0 else
    var last := |ts| - 1;
    SizeAll(ts[..last]) + Size(ts[last])
  }

  function Max(a: nat, b: nat): nat { if a < b then b else a }

  /** Nesting depth, counting the root as zero. */
  function Depth(t: Tree): nat
    decreases t, 0
  {
    if t.children == [] then 0 else 1 + DepthAll(t.children)
  }

  function DepthAll(ts: seq<Tree>): nat
    decreases ts, 0
  {
    if ts == [] then 0 else
    var last := |ts| - 1;
    Max(DepthAll(ts[..last]), Depth(ts[last]))
  }

  // ----- serialisation -----

  /** The nodes of a tree in post order, when `base` nodes precede them. */
  function Encode(base: nat, t: Tree): (nodes: seq<Node>)
    ensures |nodes| == Size(t)
    decreases t, 0
  {
    EncodeAll(base, t.children) + [Node(t.tag, Roots(base, t.children))]
  }

  function EncodeAll(base: nat, ts: seq<Tree>): (nodes: seq<Node>)
    ensures |nodes| == SizeAll(ts)
    decreases ts, 0
  {
    if ts == [] then [] else
    var last := |ts| - 1;
    EncodeAll(base, ts[..last]) + Encode(base + SizeAll(ts[..last]), ts[last])
  }

  /** The node IDs of a row of trees laid out one after the other. */
  function Roots(base: nat, ts: seq<Tree>): (ids: seq<nat>)
    ensures |ids| == |ts|
  {
    if ts == [] then [] else Roots(base, ts[..|ts| - 1]) + [base + SizeAll(ts) - 1]
  }

  lemma EncodeNext(base: nat, ts: seq<Tree>, i: nat)
    requires i < |ts|
    ensures SizeAll(ts[..i + 1]) == SizeAll(ts[..i]) + Size(ts[i])
    ensures EncodeAll(base, ts[..i + 1]) == EncodeAll(base, ts[..i]) + Encode(base + SizeAll(ts[..i]), ts[i])
    ensures Roots(base, ts[..i + 1]) == Roots(base, ts[..i]) + [base + SizeAll(ts[..i + 1]) - 1]
  {
    hide Encode, Size;
    assert ts[..i + 1][..i] == ts[..i];
  }

  lemma EncodeNode(base: nat, t: Tree)
    ensures Encode(base, t) == EncodeAll(base, t.children) + [Node(t.tag, Roots(base, t.children))]
    ensures EncodeAll(base, []) == [] && Roots(base, []) == []
  {
  }

  class DocumentSerializer {
    var nodes: seq<Node>

    constructor ()
      ensures nodes == []
    {
      nodes := [];
    }

    method Push(node: Node) returns (id: nat)
      modifies this
      ensures nodes == old(nodes) + [node] && id == |old(nodes)|
    {
      id := |nodes|;
      nodes := nodes + [node];
    }

    /** Appends the children first and then the node that lists them. */
    method Serialize(t: Tree) returns (id: nat)
      modifies this
      ensures nodes == old(nodes) + Encode(|old(nodes)|, t) && id == |nodes| - 1
      decreases t
    {
      hide Encode, EncodeAll, Roots, Size, SizeAll;
      ghost var base := |nodes|;
      var fields: seq<nat> := [];
      assert t.children[..0] == [];
      EncodeNode(base, t);
      for i := 0 to |t.children|
        invariant nodes == old(nodes) + EncodeAll(base, t.children[..i])
        invariant fields == Roots(base, t.children[..i])
      {
        ghost var before := nodes;
        var field := Serialize(t.children[i]);
        EncodeNext(base, t.children, i);
        assert nodes == old(nodes) + (EncodeAll(base, t.children[..i]) + Encode(|before|, t.children[i]));
        fields := fields + [field];
      }
      assert t.children[..|t.children|] == t.children;
      id := Push(Node(t.tag, fields));
    }
  }

  // ----- references -----

  /** All child references of a list of nodes. */
  function Refs(nodes: seq<Node>): seq<nat> {
    if nodes == [] then [] else Refs(nodes[..|nodes| - 1]) + nodes[|nodes| - 1].children
  }

  lemma {:induction false} RefsAppend(a: seq<Node>, b: seq<Node>)
    ensures Refs(a + b) == Refs(a) + Refs(b)
    decreases |b|
  {
    hide Refs;
    if b == [] {
      assert a + b == a;
      RefsOfNothing();
    } else {
      var last := |b| - 1;
      RefsAppend(a, b[..last]);
      assert b[..last] + [b[last]] == b && a + b == a + b[..last] + [b[last]];
      RefsSnoc(a + b[..last], b[last]);
      RefsSnoc(b[..last], b[last]);
    }
  }

  lemma RefsOfNothing()
    ensures Refs([]) == []
  {
  }

  lemma RefsSnoc(nodes: seq<Node>, node: Node)
    ensures Refs(nodes + [node]) == Refs(nodes) + node.children
  {
    assert (nodes + [node])[..|nodes|] == nodes;
  }

  predicate ChildrenEarlier(nodes: seq<Node>) {
    forall i, j :: 0 <= i < |nodes| && 0 <= j < |nodes[i].children| ==> nodes[i].children[j] < i
  }

  /** Every node but the last is listed exactly once, the last never. */
  ghost predicate OneParentEach(nodes: seq<Node>) {
    forall c :: 0 <= c < |nodes| ==> multiset(Refs(nodes))[c] == if c == |nodes| - 1 then 0 else 1
  }

  // ----- decoding -----

  /** The tree below a node, when children come earlier. */
  function Unfold(nodes: seq<Node>, n: nat): Tree
    requires ChildrenEarlier(nodes) && n < |nodes|
    decreases n, 1, 0
  {
    Tree(nodes[n].tag, UnfoldAll(nodes, n, |nodes[n].children|))
  }

  function UnfoldAll(nodes: seq<Node>, n: nat, k: nat): (ts: seq<Tree>)
    requires ChildrenEarlier(nodes) && n < |nodes| && k <= |nodes[n].children|
    ensures |ts| == k
    decreases n, 0, k
  {
    if k == 0 then [] else UnfoldAll(nodes, n, k - 1) + [Unfold(nodes, nodes[n].children[k - 1])]
  }

  datatype Decoded<+T> = Value(value: T) | Failed

  /** Reads a node through the deserializer: an unknown node or a child beyond the
      depth limit fails. It is total on every document, valid or not. */
  function Decode(nodes: seq<Node>, n: nat, depth: nat): Decoded<Tree>
    decreases MAX_NESTING_DEPTH + 1 - depth, 1, 0
  {
    if n >= |nodes| then Failed else
    match DecodeAll(nodes, n, |nodes[n].children|, depth)
    case Value(children) => Value(Tree(nodes[n].tag, children))
    case Failed => Failed
  }

  function DecodeAll(nodes: seq<Node>, n: nat, k: nat, depth: nat): Decoded<seq<Tree>>
    requires n < |nodes| && k <= |nodes[n].children|
    decreases MAX_NESTING_DEPTH + 1 - depth, 0, k
  {
    if k == 0 then Value([]) else
    match DecodeAll(nodes, n, k - 1, depth)
    case Failed => Failed
    case Value(earlier) =>
      if depth + 1 > MAX_NESTING_DEPTH then Failed else
      match Decode(nodes, nodes[n].children[k - 1], depth + 1)
      case Failed => Failed
      case Value(t) => Value(earlier + [t])
  }

  /** Decoding succeeds with the unfolded tree exactly when the depth limit is kept. */
  lemma {:induction false} DecodeMeaning(nodes: seq<Node>, n: nat, depth: nat)
    requires ChildrenEarlier(nodes) && n < |nodes| && depth <= MAX_NESTING_DEPTH
    ensures Decode(nodes, n, depth) ==
            if depth + Depth(Unfold(nodes, n)) <= MAX_NESTING_DEPTH then Value(Unfold(nodes, n)) else Failed
    decreases n, 1, 0
  {
    DecodeAllMeaning(nodes, n, |nodes[n].children|, depth);
  }

  lemma {:induction false} DecodeAllMeaning(nodes: seq<Node>, n: nat, k: nat, depth: nat)
    requires ChildrenEarlier(nodes) && n < |nodes| && k <= |nodes[n].children| && depth <= MAX_NESTING_DEPTH
    ensures DecodeAll(nodes, n, k, depth) ==
            if k == 0 || depth + 1 + DepthAll(UnfoldAll(nodes, n, k)) <= MAX_NESTING_DEPTH
            then Value(UnfoldAll(nodes, n, k)) else Failed
    decreases n, 0, k
  {
    hide Decode, Unfold, Depth, DepthAll, ChildrenEarlier;
    if k > 0 {
      ChildBelow(nodes, n, k - 1);
      var c := nodes[n].children[k - 1];
      DecodeAllMeaning(nodes, n, k - 1, depth);
      DepthSnoc(UnfoldAll(nodes, n, k - 1), Unfold(nodes, c));
      if depth + 1 <= MAX_NESTING_DEPTH { DecodeMeaning(nodes, c, depth + 1); }
    }
  }

  lemma ChildBelow(nodes: seq<Node>, n: nat, k: nat)
    requires ChildrenEarlier(nodes) && n < |nodes| && k < |nodes[n].children|
    ensures nodes[n].children[k] < n
  {
  }

  lemma DepthSnoc(ts: seq<Tree>, t: Tree)
    ensures DepthAll(ts + [t]) == Max(DepthAll(ts), Depth(t)) && DepthAll([]) == 0
  {
    assert (ts + [t])[..|ts|] == ts;
  }
}
