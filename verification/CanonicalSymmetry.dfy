/** Equal operations converge on one literal: operand order, a negated select
    and a common arm phase never lead to a second node. */
module CanonicalSymmetry {
  import opened Lists
  import opened LogicNetwork
  import opened Canonical

  /** A factor of a stored gate is an earlier node. */
  lemma FactorBelow(store: Store, l: Lit, factor: Lit, kind: NodeKind)
    requires Inv(store) && kind.Arity() >= 2
    ensures HasFactor(BinaryFanins(store.rows, l, kind), factor) ==> factor.node < l.node
  {
    if l.node < |store.rows| { assert GoodRow(store.rows[l.node], l.node); }
  }

  lemma AndCommutes(store: Store, left: Lit, right: Lit, origin: nat)
    requires Inv(store) && Legal(store, left) && Legal(store, right)
    ensures BuildAnd(store, left, right, origin) == BuildAnd(store, right, left, origin)
  {
    hide Inv, Size, Resolve;
    if left.IsConstant() || right.IsConstant() || left.node == right.node {
    } else {
      FactorBelow(store, left, right, And);
      FactorBelow(store, right, left, And);
      FactorBelow(store, left.Positive(), right.Not(), And);
      FactorBelow(store, right.Positive(), left.Not(), And);
    }
  }

  /** A negated select is the same multiplexer with its arms exchanged. */
  lemma MuxNegatedSelect(store: Store, select: Lit, t: Lit, e: Lit, origin: nat)
    requires Inv(store) && Legal(store, select) && Legal(store, t) && Legal(store, e)
    ensures BuildMux(store, select.Not(), e, t, origin) == BuildMux(store, select, t, e, origin)
  {
    hide Inv, Size, MuxReduce;
  }

  /** Two arms of one phase: negating both negates the result, on the same node. */
  lemma MuxNegatedArms(store: Store, select: Lit, t: Lit, e: Lit, origin: nat)
    requires Inv(store) && Legal(store, select) && Legal(store, t) && Legal(store, e)
    requires t.inverted == e.inverted
    ensures BuildMux(store, select, t.Not(), e.Not(), origin) == BuildMux(store, select, t, e, origin).Phase(true)
  {
    hide Inv, Size, MuxReduce;
  }

  lemma FactorCommutes(store: Store, left: Lit, right: Lit)
    requires Inv(store)
    ensures OrFactor(store, right, left) ==
            match OrFactor(store, left, right)
            case Some((s, t, e)) => Some((s.Not(), e, t))
            case None => None
  {
    if OrFactor(store, left, right).Some? || OrFactor(store, right, left).Some? {
      assert GoodRow(store.rows[left.node], left.node);
      assert GoodRow(store.rows[right.node], right.node);
    }
  }

  lemma OrCommutes(store: Store, left: Lit, right: Lit, origin: nat)
    requires Inv(store) && Legal(store, left) && Legal(store, right)
    ensures BuildOr(store, left, right, origin) == BuildOr(store, right, left, origin)
  {
    hide Inv, Size, BuildAnd, BuildMux, OrFactor;
    FactorCommutes(store, left, right);
    match OrFactor(store, left, right)
    case Some((s, t, e)) =>
      OrFactorWeight(store, left, right);
      OrFactorWeight(store, right, left);
      MuxNegatedSelect(store, s, t, e, origin);
    case None =>
      AndCommutes(store, left.Not(), right.Not(), origin);
  }

  lemma ParityCommutes(store: Store, left: Lit, right: Lit)
    requires Inv(store) && store.mode.Building? && Legal(store, left) && Legal(store, right)
    requires left.node != right.node
    ensures ParityOf(store.rows, right, left) ==
            match ParityOf(store.rows, left, right)
            case Cancelled(l) => Cancelled(l)
            case Shared(l, r) => Shared(r, l)
            case Unrelated => Unrelated
  {
    var leftFanins, rightFanins := BinaryFanins(store.rows, left, Xor), BinaryFanins(store.rows, right, Xor);
    assert GoodRow(store.rows[left.node], left.node) && GoodRow(store.rows[right.node], right.node);
    if leftFanins.Some? && rightFanins.Some? {
      SharedCommutes(leftFanins.value, rightFanins.value);
      assert KeyOf(store.rows[left.node]) != KeyOf(store.rows[right.node]);
    }
  }

  lemma SharedCommutes(left: (Lit, Lit), right: (Lit, Lit))
    requires CanonicalXor(left.0, left.1) && CanonicalXor(right.0, right.1)
    ensures left != right ==>
      XorSharedRemaining(right, left) ==
      match XorSharedRemaining(left, right)
      case Some((l, r)) => Some((r, l))
      case None => None
  {
  }

  lemma {:induction false} XorCommutes(store: Store, left: Lit, right: Lit, origin: nat)
    requires Inv(store) && store.mode.Building? && Legal(store, left) && Legal(store, right)
    ensures BuildXor(store, left, right, origin) == BuildXor(store, right, left, origin)
    decreases Weight(store, left) + Weight(store, right)
  {
    hide Inv, Size, Resolve, ParityOf;
    if left.IsConstant() || right.IsConstant() || left.node == right.node {
    } else {
      var l, r := left.Positive(), right.Positive();
      ParityCommutes(store, l, r);
      ParityWeight(store, l, r);
      ParityWeight(store, r, l);
      match ParityOf(store.rows, l, r)
      case Cancelled(_) =>
      case Shared(a, b) => XorCommutes(store, a, b, origin);
      case Unrelated =>
        assert XorPositive(store, l, r, origin) == XorPositive(store, r, l, origin);
    }
  }
}
