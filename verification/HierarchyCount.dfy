/** Occurrence counting: pushing counts from parents to children, once per
    definition, gives the sizes of the fully expanded hierarchy. */
module HierarchyCount {
  import opened Lists
  import opened Hierarchy
  import opened HierarchyOrder

  const MAX: nat := 0xFFFF_FFFF_FFFF_FFFF

  /** What is counted in the expansion: unresolved instances, or occurrences of one definition. */
  datatype Query = AnyUnresolved | OfDefinition(definition: nat)

  /** How many answers to `q` the expansion of `d` has, `d` itself included. */
  ghost function Total(defs: Definitions, order: seq<nat>, q: Query, d: nat): nat
    requires ChildrenFirst(defs, order) && d in order && d < |defs|
    decreases Rank(order, d), |defs[d]| + 1
  {
    (if q == OfDefinition(d) then 1 else 0) + Below(defs, order, q, d, 0)
  }

  /** How many of them lie below the instances of `d` from `k` on. */
  ghost function Below(defs: Definitions, order: seq<nat>, q: Query, d: nat, k: nat): nat
    requires ChildrenFirst(defs, order) && d in order && d < |defs| && k <= |defs[d]|
    decreases Rank(order, d), |defs[d]| - k
  {
    if k == |defs[d]| then 0 else
      (if defs[d][k].binding.Design? then
         ChildRank(defs, order, d, k);
         Total(defs, order, q, defs[d][k].binding.definition)
       else if defs[d][k].binding.Unresolved? && q == AnyUnresolved then 1 else 0)
      + Below(defs, order, q, d, k + 1)
  }

  /** Unresolved answers are exactly the paths of the expansion. */
  lemma {:induction false} BelowIsExpansion(defs: Definitions, order: seq<nat>, d: nat, k: nat)
    requires ChildrenFirst(defs, order) && d in order && d < |defs| && k <= |defs[d]|
    ensures Below(defs, order, AnyUnresolved, d, k) == |Expand(defs, order, d, k)|
    decreases Rank(order, d), |defs[d]| - k
  {
    if k < |defs[d]| {
      if defs[d][k].binding.Design? {
        ChildRank(defs, order, d, k);
        BelowIsExpansion(defs, order, defs[d][k].binding.definition, 0);
      }
      BelowIsExpansion(defs, order, d, k + 1);
    }
  }

  // ----- the weighted sum over definitions still to push -----

  ghost function Pending(defs: Definitions, order: seq<nat>, counts: seq<nat>, q: Query, n: nat): nat
    requires ChildrenFirst(defs, order) && |counts| == |defs| && n <= |order|
  {
    if n == 0 then 0 else
      Pending(defs, order, counts, q, n - 1) + counts[order[n - 1]] * Total(defs, order, q, order[n - 1])
  }

  lemma {:induction false} PendingUnchanged(defs: Definitions, order: seq<nat>, counts: seq<nat>, q: Query, n: nat,
                                            c: nat, count: nat)
    requires ChildrenFirst(defs, order) && |counts| == |defs| && n <= |order| && c < |defs| && c !in order[..n]
    ensures Pending(defs, order, counts[c := count], q, n) == Pending(defs, order, counts, q, n)
  {
    hide Total;
    if n > 0 {
      assert order[..n] == order[..n - 1] + [order[n - 1]];
      assert order[n - 1] in order[..n];
      PendingUnchanged(defs, order, counts, q, n - 1, c, count);
    }
  }

  /** Raising one pending count raises the sum by that much of the definition's total. */
  lemma {:induction false} PendingRaised(defs: Definitions, order: seq<nat>, counts: seq<nat>, q: Query, n: nat, j: nat,
                                         more: nat)
    requires ChildrenFirst(defs, order) && Distinct(order) && |counts| == |defs| && j < n <= |order|
    ensures Pending(defs, order, counts[order[j] := counts[order[j]] + more], q, n)
            == Pending(defs, order, counts, q, n) + more * Total(defs, order, q, order[j])
  {
    hide Total;
    var raised := counts[order[j] := counts[order[j]] + more];
    if j == n - 1 {
      PendingUnchanged(defs, order, counts, q, n - 1, order[j], counts[order[j]] + more);
      Spread(counts[order[j]], more, Total(defs, order, q, order[j]));
    } else {
      PendingRaised(defs, order, counts, q, n - 1, j, more);
      assert order[n - 1] != order[j];
    }
  }

  lemma Spread(a: nat, b: nat, t: nat)
    ensures (a + b) * t == a * t + b * t && t * (a + b) == t * a + t * b
  {
  }

  /** One pending definition alone accounts for its count. */
  lemma {:induction false} PendingHolds(defs: Definitions, order: seq<nat>, counts: seq<nat>, n: nat, j: nat)
    requires ChildrenFirst(defs, order) && |counts| == |defs| && j < n <= |order|
    ensures Pending(defs, order, counts, OfDefinition(order[j]), n) >= counts[order[j]]
  {
    hide Below;
    if j == n - 1 {
      Product(counts[order[j]], Total(defs, order, OfDefinition(order[j]), order[j]));
    } else {
      PendingHolds(defs, order, counts, n - 1, j);
    }
  }

  lemma Product(a: nat, t: nat)
    requires t >= 1
    ensures a * t >= a
  {
  }

  /** Answers already settled: unresolved ones seen, and definitions already pushed. */
  ghost function Settled(order: seq<nat>, counts: seq<nat>, unresolved: nat, q: Query, n: nat): nat
    requires n <= |order|
  {
    match q
    case AnyUnresolved => unresolved
    case OfDefinition(t) => if t in order[n..] && t < |counts| then counts[t] else 0
  }

  /** Nothing of the expansion is lost or counted twice: definitions `order[..n]`
      are still to push, and the next one has been pushed up to instance `k`. */
  ghost predicate Conserved(defs: Definitions, root: nat, order: seq<nat>, counts: seq<nat>, unresolved: nat, n: nat,
                            k: nat, q: Query)
    requires ChildrenFirst(defs, order) && root in order && root < |defs| && |counts| == |defs| && n < |order|
    requires k <= |defs[order[n]]|
  {
    Pending(defs, order, counts, q, n) + counts[order[n]] * Below(defs, order, q, order[n], k)
    + Settled(order, counts, unresolved, q, n)
    == Total(defs, order, q, root)
  }

  ghost predicate Between(defs: Definitions, root: nat, order: seq<nat>, counts: seq<nat>, unresolved: nat, n: nat,
                          q: Query)
    requires ChildrenFirst(defs, order) && root in order && root < |defs| && |counts| == |defs| && n <= |order|
  {
    Pending(defs, order, counts, q, n) + Settled(order, counts, unresolved, q, n) == Total(defs, order, q, root)
  }

  ghost predicate AllConserved(defs: Definitions, root: nat, order: seq<nat>, counts: seq<nat>, unresolved: nat, n: nat,
                               k: nat)
    requires ChildrenFirst(defs, order) && root in order && root < |defs| && |counts| == |defs| && n < |order|
    requires k <= |defs[order[n]]|
  {
    forall q :: Conserved(defs, root, order, counts, unresolved, n, k, q)
  }

  ghost predicate AllBetween(defs: Definitions, root: nat, order: seq<nat>, counts: seq<nat>, unresolved: nat, n: nat)
    requires ChildrenFirst(defs, order) && root in order && root < |defs| && |counts| == |defs| && n <= |order|
  {
    forall q :: Between(defs, root, order, counts, unresolved, n, q)
  }

  lemma {:induction false} Zeros(defs: Definitions, order: seq<nat>, counts: seq<nat>, q: Query, n: nat)
    requires ChildrenFirst(defs, order) && |counts| == |defs| && n <= |order|
    requires forall d :: 0 <= d < |counts| ==> counts[d] == 0
    ensures Pending(defs, order, counts, q, n) == 0
  {
    hide Total;
    if n > 0 { Zeros(defs, order, counts, q, n - 1); }
  }

  lemma Begin(defs: Definitions, root: nat, order: seq<nat>, zeros: seq<nat>)
    requires ChildrenFirst(defs, order) && Distinct(order) && root in order && root < |defs| && |zeros| == |defs|
    requires forall d :: 0 <= d < |zeros| ==> zeros[d] == 0
    ensures AllBetween(defs, root, order, zeros[root := 1], 0, |order|)
  {
    hide Total;
    var counts, n := zeros[root := 1], |order|;
    forall q ensures Between(defs, root, order, counts, 0, n, q) {
      Zeros(defs, order, zeros, q, n);
      PendingRaised(defs, order, zeros, q, n, Rank(order, root), 1);
    }
  }

  lemma Open(defs: Definitions, root: nat, order: seq<nat>, counts: seq<nat>, unresolved: nat, n: nat)
    requires ChildrenFirst(defs, order) && Distinct(order) && root in order && root < |defs| && |counts| == |defs|
    requires n < |order|
    requires AllBetween(defs, root, order, counts, unresolved, n + 1)
    ensures AllConserved(defs, root, order, counts, unresolved, n, 0)
  {
    hide Below;
    var p, next, k := order[n], n + 1, 0;
    assert order[n..] == [p] + order[next..];
    assert p !in order[next..];
    forall q ensures Conserved(defs, root, order, counts, unresolved, n, k, q) {
      assert Between(defs, root, order, counts, unresolved, next, q);
      var self: nat := if q == OfDefinition(p) then 1 else 0;
      Spread(self, Below(defs, order, q, p, 0), counts[p]);
    }
  }

  lemma Close(defs: Definitions, root: nat, order: seq<nat>, counts: seq<nat>, unresolved: nat, n: nat)
    requires ChildrenFirst(defs, order) && root in order && root < |defs| && |counts| == |defs| && n < |order|
    requires AllConserved(defs, root, order, counts, unresolved, n, |defs[order[n]]|)
    ensures AllBetween(defs, root, order, counts, unresolved, n)
  {
    hide Total, Pending;
    var k := |defs[order[n]]|;
    forall q ensures Between(defs, root, order, counts, unresolved, n, q) {
      assert Conserved(defs, root, order, counts, unresolved, n, k, q);
    }
  }

  /** A link is listed among the definitions still to push. */
  lemma ChildAhead(defs: Definitions, order: seq<nat>, n: nat, k: nat) returns (j: nat)
    requires ChildrenFirst(defs, order) && Distinct(order) && n < |order| && k < |defs[order[n]]|
    requires defs[order[n]][k].binding.Design?
    ensures j < n && order[j] == defs[order[n]][k].binding.definition && order[j] !in order[n..]
  {
    var c := defs[order[n]][k].binding.definition;
    assert c in order[..n];
    j :| 0 <= j < n && order[..n][j] == c;
    forall i | 0 <= i < |order[n..]| ensures order[n..][i] != c { assert order[n + i] != order[j]; }
  }

  lemma BelowSplit(defs: Definitions, order: seq<nat>, q: Query, d: nat, k: nat, count: nat, first: nat)
    requires ChildrenFirst(defs, order) && d in order && d < |defs| && k < |defs[d]|
    requires first + Below(defs, order, q, d, k + 1) == Below(defs, order, q, d, k)
    ensures count * Below(defs, order, q, d, k) == count * first + count * Below(defs, order, q, d, k + 1)
  {
    Spread(first, Below(defs, order, q, d, k + 1), count);
  }

  lemma PushChild(defs: Definitions, root: nat, order: seq<nat>, counts: seq<nat>, unresolved: nat, n: nat, k: nat,
                  j: nat, q: Query)
    requires ChildrenFirst(defs, order) && Distinct(order) && root in order && root < |defs| && |counts| == |defs|
    requires n < |order|
    requires k < |defs[order[n]]| && j < n && defs[order[n]][k].binding == Design(order[j]) && order[j] !in order[n..]
    requires Conserved(defs, root, order, counts, unresolved, n, k, q)
    ensures Conserved(defs, root, order, counts[order[j] := counts[order[j]] + counts[order[n]]], unresolved, n, k + 1,
        q)
  {
    hide Pending, Total;
    var p := order[n];
    assert p != order[j];
    PendingRaised(defs, order, counts, q, n, j, counts[p]);
    BelowSplit(defs, order, q, p, k, counts[p], Total(defs, order, q, order[j]));
  }

  lemma PushChildAll(defs: Definitions, root: nat, order: seq<nat>, counts: seq<nat>, unresolved: nat, n: nat, k: nat,
                     j: nat)
    requires ChildrenFirst(defs, order) && Distinct(order) && root in order && root < |defs| && |counts| == |defs|
    requires n < |order|
    requires k < |defs[order[n]]| && j < n && defs[order[n]][k].binding == Design(order[j]) && order[j] !in order[n..]
    requires AllConserved(defs, root, order, counts, unresolved, n, k)
    ensures AllConserved(defs, root, order, counts[order[j] := counts[order[j]] + counts[order[n]]], unresolved, n,
        k + 1)
  {
    hide Conserved;
    var counts', next := counts[order[j] := counts[order[j]] + counts[order[n]]], k + 1;
    forall q ensures Conserved(defs, root, order, counts', unresolved, n, next, q) {
      PushChild(defs, root, order, counts, unresolved, n, k, j, q);
    }
  }

  /** An unresolved instance settles one answer per occurrence of its parent; an external one settles none. */
  lemma PushLeaf(defs: Definitions, root: nat, order: seq<nat>, counts: seq<nat>, unresolved: nat, n: nat, k: nat)
    requires ChildrenFirst(defs, order) && root in order && root < |defs| && |counts| == |defs| && n < |order|
    requires k < |defs[order[n]]| && !defs[order[n]][k].binding.Design?
    requires AllConserved(defs, root, order, counts, unresolved, n, k)
    ensures AllConserved(defs, root, order, counts,
                         unresolved + (if defs[order[n]][k].binding.Unresolved? then counts[order[n]] else 0), n, k + 1)
  {
    hide Pending, Total;
    var unresolved' := unresolved + (if defs[order[n]][k].binding.Unresolved? then counts[order[n]] else 0);
    var next := k + 1;
    forall q ensures Conserved(defs, root, order, counts, unresolved', n, next, q) {
      assert Conserved(defs, root, order, counts, unresolved, n, k, q);
      var first := if defs[order[n]][k].binding.Unresolved? && q == AnyUnresolved then 1 else 0;
      BelowSplit(defs, order, q, order[n], k, counts[order[n]], first);
    }
  }

  /** A push that would overflow exceeds the true count of the child. */
  lemma ChildOverflow(defs: Definitions, root: nat, order: seq<nat>, counts: seq<nat>, unresolved: nat, n: nat, k: nat,
                      j: nat)
    requires ChildrenFirst(defs, order) && Distinct(order) && root in order && root < |defs| && |counts| == |defs|
    requires n < |order|
    requires k < |defs[order[n]]| && j < n && defs[order[n]][k].binding == Design(order[j]) && order[j] !in order[n..]
    requires AllConserved(defs, root, order, counts, unresolved, n, k)
    ensures Total(defs, order, OfDefinition(order[j]), root) >= counts[order[j]] + counts[order[n]]
  {
    hide Pending, Total, Below;
    PushChildAll(defs, root, order, counts, unresolved, n, k, j);
    assert Conserved(defs, root, order, counts[order[j] := counts[order[j]] + counts[order[n]]], unresolved, n, k + 1,
        OfDefinition(order[j]));
    PendingHolds(defs, order, counts[order[j] := counts[order[j]] + counts[order[n]]], n, j);
  }

  // ----- the pass -----

  datatype Counted =
    | Counts(counts: seq<nat>, unresolved: nat)
    | DefinitionOverflow(definition: nat)
    | UnresolvedOverflow

  /** `counts` and `unresolved` are the exact sizes of the expansion of `root`. */
  ghost predicate Exact(defs: Definitions, root: nat, order: seq<nat>, counts: seq<nat>, unresolved: nat)
    requires ChildrenFirst(defs, order) && root in order && root < |defs|
  {
    && |counts| == |defs| && unresolved == |Expand(defs, order, root, 0)|
    && forall t :: t in order && t < |counts| ==> counts[t] == Total(defs, order, OfDefinition(t), root)
  }

  lemma Done(defs: Definitions, root: nat, order: seq<nat>, counts: seq<nat>, unresolved: nat)
    requires ChildrenFirst(defs, order) && root in order && root < |defs| && |counts| == |defs|
    requires AllBetween(defs, root, order, counts, unresolved, 0)
    ensures Exact(defs, root, order, counts, unresolved)
  {
    hide Below, Expand;
    assert Between(defs, root, order, counts, unresolved, 0, AnyUnresolved);
    BelowIsExpansion(defs, order, root, 0);
    forall t | t in order && t < |counts| ensures counts[t] == Total(defs, order, OfDefinition(t), root) {
      assert Between(defs, root, order, counts, unresolved, 0, OfDefinition(t));
      assert order[0..] == order;
    }
  }

  predicate Small(counts: seq<nat>) {
    forall t :: 0 <= t < |counts| ==> counts[t] <= MAX
  }

  /** Succeeds exactly when every size fits in 64 bits, and then the sizes are exact. */
  method CountOccurrences(defs: Definitions, root: nat, order: seq<nat>) returns (result: Counted)
    requires PostorderOf(defs, root, order) && root in order && root < |defs|
    ensures result.Counts? ==> Exact(defs, root, order, result.counts, result.unresolved)
    ensures result.Counts? ==> result.unresolved <= MAX && Small(result.counts)
    ensures result.DefinitionOverflow? ==> result.definition in order && result.definition < |defs|
                                           && Total(defs, order, OfDefinition(result.definition), root) > MAX
    ensures result.UnresolvedOverflow? ==> |Expand(defs, order, root, 0)| > MAX
  {
    hide Total, Below, Pending, AllConserved, AllBetween, Expand, Reachable, Exact;
    var zeros: seq<nat> := seq(|defs|, _ => 0);
    var counts := zeros[root := 1];
    var unresolved: nat := 0;
    Begin(defs, root, order, zeros);
    var n: nat := |order|;
    while n > 0
      invariant n <= |order| && |counts| == |defs| && Small(counts) && unresolved <= MAX
      invariant AllBetween(defs, root, order, counts, unresolved, n)
    {
      n := n - 1;
      var pushed := Push(defs, root, order, counts, unresolved, n);
      if !pushed.Counts? { return pushed; }
      counts, unresolved := pushed.counts, pushed.unresolved;
    }
    Done(defs, root, order, counts, unresolved);
    result := Counts(counts, unresolved);
  }

  method Push(defs: Definitions, ghost root: nat, order: seq<nat>, counts: seq<nat>, unresolved: nat, n: nat)
      returns (result: Counted)
    requires PostorderOf(defs, root, order) && root in order && root < |defs|
    requires n < |order| && |counts| == |defs| && Small(counts) && unresolved <= MAX
    requires AllBetween(defs, root, order, counts, unresolved, n + 1)
    ensures result.Counts? ==> |result.counts| == |defs| && result.unresolved <= MAX && Small(result.counts)
    ensures result.Counts? ==> AllBetween(defs, root, order, result.counts, result.unresolved, n)
    ensures result.DefinitionOverflow? ==> result.definition in order && result.definition < |defs|
                                           && Total(defs, order, OfDefinition(result.definition), root) > MAX
    ensures result.UnresolvedOverflow? ==> |Expand(defs, order, root, 0)| > MAX
  {
    hide Total, Below, Pending, AllConserved, AllBetween, Expand, Reachable;
    var counts: seq<nat>, unresolved: nat := counts, unresolved;
    var parent := order[n];
    Open(defs, root, order, counts, unresolved, n);
    for k := 0 to |defs[parent]|
      invariant |counts| == |defs| && Small(counts) && unresolved <= MAX
      invariant AllConserved(defs, root, order, counts, unresolved, n, k)
    {
      match defs[parent][k].binding {
        case Design(child) =>
          ghost var j := ChildAhead(defs, order, n, k);
          if counts[child] + counts[parent] > MAX {
            ChildOverflow(defs, root, order, counts, unresolved, n, k, j);
            return DefinitionOverflow(child);
          }
          PushChildAll(defs, root, order, counts, unresolved, n, k, j);
          counts := counts[child := counts[child] + counts[parent]];
        case Unresolved =>
          PushLeaf(defs, root, order, counts, unresolved, n, k);
          if unresolved + counts[parent] > MAX {
            UnresolvedAtLeast(defs, root, order, counts, unresolved + counts[parent], n, k + 1);
            return UnresolvedOverflow;
          }
          unresolved := unresolved + counts[parent];
        case External =>
          PushLeaf(defs, root, order, counts, unresolved, n, k);
      }
    }
    Close(defs, root, order, counts, unresolved, n);
    result := Counts(counts, unresolved);
  }

  lemma UnresolvedAtLeast(defs: Definitions, root: nat, order: seq<nat>, counts: seq<nat>, unresolved: nat, n: nat,
                          k: nat)
    requires ChildrenFirst(defs, order) && root in order && root < |defs| && |counts| == |defs| && n < |order|
    requires k <= |defs[order[n]]|
    requires AllConserved(defs, root, order, counts, unresolved, n, k)
    ensures |Expand(defs, order, root, 0)| >= unresolved
  {
    hide Below, Pending, Expand;
    assert Conserved(defs, root, order, counts, unresolved, n, k, AnyUnresolved);
    BelowIsExpansion(defs, order, root, 0);
  }

  /** The search agrees with the count: something unresolved is found exactly when the count is positive. */
  lemma FoundIffCounted(defs: Definitions, root: nat, order: seq<nat>, counts: seq<nat>, unresolved: nat)
    requires ChildrenFirst(defs, order) && root in order && root < |defs|
    requires Exact(defs, root, order, counts, unresolved)
    ensures FirstOf(defs, order, root).Some? <==> unresolved != 0
  {
  }

  datatype Summary =
    | Summary(postorder: seq<nat>, counts: seq<nat>, unresolved: nat, first: Option<Occurrence>)
    | Recursion(cycle: seq<nat>)
    | Overflow(definition: Option<nat>)

  /** Orders, counts and searches one definition graph. A recursive hierarchy has no
      summary; otherwise the linear passes describe the whole expansion, unless it
      is too large to count. */
  method Summarize(defs: Definitions, root: nat) returns (result: Summary)
    requires Linked(defs) && root < |defs|
    ensures result.Recursion? <==> ContainsItself(defs, root)
    ensures result.Summary? ==>
              && PostorderOf(defs, root, result.postorder) && root in result.postorder
              && result.postorder == Visit(defs, result.postorder, root, [])
              && Exact(defs, root, result.postorder, result.counts, result.unresolved)
              && result.first == FirstOf(defs, result.postorder, root)
              && (result.first.Some? <==> result.unresolved != 0)
    ensures result.Overflow? ==> exists order :: TooLarge(defs, root, order, result.definition)
  {
    hide Reachable, PostorderOf, ContainsItself, Exact, FirstOf, Total, Expand, Visit;
    var order := ComputePostorder(defs, root);
    if order.Recursive? { return Recursion(order.cycle); }
    var postorder := order.postorder;
    RootListed(defs, root, postorder);
    var counted := CountOccurrences(defs, root, postorder);
    match counted {
      case DefinitionOverflow(definition) =>
        assert TooLarge(defs, root, postorder, Some(definition));
        return Overflow(Some(definition));
      case UnresolvedOverflow =>
        assert TooLarge(defs, root, postorder, None);
        return Overflow(None);
      case Counts(counts, unresolved) =>
        var first := FindFirstUnresolved(defs, root, postorder);
        FoundIffCounted(defs, root, postorder, counts, unresolved);
        return Summary(postorder, counts, unresolved, first);
    }
  }

  /** The expansion has more than 64 bits worth of one definition, or of unresolved instances. */
  ghost predicate TooLarge(defs: Definitions, root: nat, order: seq<nat>, definition: Option<nat>) {
    && root < |defs| && PostorderOf(defs, root, order) && root in order
    && match definition
       case None => |Expand(defs, order, root, 0)| > MAX
       case Some(d) => d in order && d < |defs| && Total(defs, order, OfDefinition(d), root) > MAX
  }

  lemma RootListed(defs: Definitions, root: nat, order: seq<nat>)
    requires PostorderOf(defs, root, order)
    ensures root in order && ChildrenFirst(defs, order)
  {
    assert Walk(defs, [root]);
    ReachedBy(defs, [root]);
  }
}
