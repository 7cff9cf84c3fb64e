/** Round trip of archives, and what acceptance means: one finite tree that uses
    every node exactly once. */
module ArchiveProof {
  import opened Lists
  import opened Archive

  // ----- what serialisation writes -----

  /** How often `m` is listed. */
  function Times(s: seq<nat>, m: nat): nat { multiset(s)[m] }

  lemma TimesConcat(a: seq<nat>, b: seq<nat>, m: nat)
    ensures Times(a + b, m) == Times(a, m) + Times(b, m)
  {
    assert multiset(a + b) == multiset(a) + multiset(b);
  }

  /** Inside one tree, every node but its root is referenced exactly once. */
  lemma {:induction false} EncodeRefs(base: nat, t: Tree, c: nat)
    ensures Times(Refs(Encode(base, t)), c) == if base <= c < base + Size(t) - 1 then 1 else 0
    decreases t, 1
  {
    hide Times, Refs, EncodeAll, Roots;
    EncodeAllRefs(base, t.children, c);
    RefsSnoc(EncodeAll(base, t.children), Node(t.tag, Roots(base, t.children)));
    TimesConcat(Refs(EncodeAll(base, t.children)), Roots(base, t.children), c);
  }

  lemma {:induction false} EncodeAllRefs(base: nat, ts: seq<Tree>, c: nat)
    ensures Times(Refs(EncodeAll(base, ts)), c) + Times(Roots(base, ts), c)
        == if base <= c < base + SizeAll(ts) then 1 else 0
    decreases ts, 0
  {
    hide Times, Refs, Encode, EncodeAll, Roots, Size, SizeAll;
    if ts == [] {
      NothingEncoded(base, c);
    } else {
      var last := |ts| - 1;
      var init := ts[..last];
      var root := base + SizeAll(ts) - 1;
      AllStep(base, ts);
      EncodeAllRefs(base, init, c);
      EncodeRefs(base + SizeAll(init), ts[last], c);
      RefsAppend(EncodeAll(base, init), Encode(base + SizeAll(init), ts[last]));
      TimesConcat(Refs(EncodeAll(base, init)), Refs(Encode(base + SizeAll(init), ts[last])), c);
      TimesConcat(Roots(base, init), [root], c);
      TimesOne(root, c);
    }
  }

  lemma NothingEncoded(base: nat, c: nat)
    ensures SizeAll([]) == 0 && Times(Refs(EncodeAll(base, [])), c) == 0 && Times(Roots(base, []), c) == 0
  {
  }

  lemma {:induction false} AllStep(base: nat, ts: seq<Tree>)
    requires ts != []
    ensures var last := |ts| - 1;
            && SizeAll(ts) == SizeAll(ts[..last]) + Size(ts[last])
            && EncodeAll(base, ts) == EncodeAll(base, ts[..last]) + Encode(base + SizeAll(ts[..last]), ts[last])
            && Roots(base, ts) == Roots(base, ts[..last]) + [base + SizeAll(ts) - 1]
  {
    hide Encode, Size;
  }

  lemma TimesOne(x: nat, c: nat)
    ensures Times([x], c) == if x == c then 1 else 0
  {
  }

  predicate Earlier(base: nat, nodes: seq<Node>) {
    forall i, j :: 0 <= i < |nodes| && 0 <= j < |nodes[i].children| ==> base <= nodes[i].children[j] < base + i
  }

  lemma {:induction false} EncodeEarlier(base: nat, t: Tree)
    ensures Earlier(base, Encode(base, t))
    decreases t, 1
  {
    EncodeAllEarlier(base, t.children);
  }

  lemma {:induction false} EncodeAllEarlier(base: nat, ts: seq<Tree>)
    ensures Earlier(base, EncodeAll(base, ts))
    ensures forall k :: 0 <= k < |ts| ==> base <= Roots(base, ts)[k] < base + SizeAll(ts)
    decreases ts, 0
  {
    if ts != [] {
      var last := |ts| - 1;
      EncodeAllEarlier(base, ts[..last]);
      EncodeEarlier(base + SizeAll(ts[..last]), ts[last]);
    }
  }

  /** A stretch of nodes that encodes a tree unfolds to that tree. */
  lemma {:induction false} UnfoldEncoded(nodes: seq<Node>, base: nat, t: Tree)
    requires ChildrenEarlier(nodes) && base + Size(t) <= |nodes| && nodes[base..base + Size(t)] == Encode(base, t)
    ensures Unfold(nodes, base + Size(t) - 1) == t
    decreases t, 1
  {
    hide EncodeAll, Roots, UnfoldAll, SizeAll;
    var n := base + Size(t) - 1;
    var all := Encode(base, t);
    assert nodes[n] == nodes[base..base + Size(t)][Size(t) - 1] == all[Size(t) - 1];
    SliceOf(nodes, base, Size(t), 0, SizeAll(t.children));
    assert all[..SizeAll(t.children)] == EncodeAll(base, t.children);
    assert t.children[..|t.children|] == t.children;
    UnfoldAllEncoded(nodes, base, t.children, n, |t.children|);
  }

  lemma SliceOf(nodes: seq<Node>, base: nat, n: nat, from: nat, to: nat)
    requires base + n <= |nodes| && from <= to <= n
    ensures nodes[base + from..base + to] == nodes[base..base + n][from..to]
  {
    var part, whole := nodes[base + from..base + to], nodes[base..base + n][from..to];
    assert |part| == |whole|;
    assert forall i :: 0 <= i < |part| ==> part[i] == whole[i];
  }

  lemma {:induction false} UnfoldAllEncoded(nodes: seq<Node>, base: nat, ts: seq<Tree>, n: nat, k: nat)
    requires ChildrenEarlier(nodes) && n < |nodes| && k <= |ts| && nodes[n].children == Roots(base, ts)
    requires base + SizeAll(ts[..k]) <= |nodes| && nodes[base..base + SizeAll(ts[..k])] == EncodeAll(base, ts[..k])
    ensures UnfoldAll(nodes, n, k) == ts[..k]
    decreases ts, 0, k
  {
    hide Encode, EncodeAll, Roots, Unfold, Size, SizeAll;
    if k > 0 {
      var init, last := ts[..k - 1], ts[k - 1];
      assert ts[..k][..k - 1] == init;
      AllStep(base, ts[..k]);
      var m := SizeAll(init);
      SliceOf(nodes, base, SizeAll(ts[..k]), 0, m);
      SliceOf(nodes, base, SizeAll(ts[..k]), m, SizeAll(ts[..k]));
      UnfoldAllEncoded(nodes, base, ts, n, k - 1);
      UnfoldEncoded(nodes, base + m, last);
      RootAt(base, ts, k - 1);
      assert ts[..k] == init + [last];
    }
  }

  lemma {:induction false} RootAt(base: nat, ts: seq<Tree>, k: nat)
    requires k < |ts|
    ensures Roots(base, ts)[k] == base + SizeAll(ts[..k + 1]) - 1
    decreases |ts|
  {
    if k < |ts| - 1 {
      RootAt(base, ts[..|ts| - 1], k);
      assert ts[..|ts| - 1][..k + 1] == ts[..k + 1];
    } else {
      assert ts[..k + 1] == ts;
    }
  }

  /** Serialised documents have the accepted structure and read back as the tree. */
  lemma EncodedStructure(t: Tree)
    ensures var nodes := Encode(0, t);
            ChildrenEarlier(nodes) && OneParentEach(nodes) && Unfold(nodes, |nodes| - 1) == t
  {
    hide Encode, Refs, Times, Unfold, Size;
    var nodes := Encode(0, t);
    EncodeEarlier(0, t);
    forall c | 0 <= c < |nodes| ensures Times(Refs(nodes), c) == if c == |nodes| - 1 then 0 else 1 {
      EncodeRefs(0, t, c);
    }
    OneParent(nodes);
    assert nodes[0..0 + Size(t)] == nodes;
    UnfoldEncoded(nodes, 0, t);
  }

  lemma OneParent(nodes: seq<Node>)
    requires forall c :: 0 <= c < |nodes| ==> Times(Refs(nodes), c) == if c == |nodes| - 1 then 0 else 1
    ensures OneParentEach(nodes)
  {
    forall c | 0 <= c < |nodes| ensures multiset(Refs(nodes))[c] == if c == |nodes| - 1 then 0 else 1 {
      assert Times(Refs(nodes), c) == if c == |nodes| - 1 then 0 else 1;
    }
  }

  // ----- every node is used exactly once -----

  /** The nodes met when the tree below `n` is read. */
  function Visits(nodes: seq<Node>, n: nat): seq<nat>
    requires ChildrenEarlier(nodes) && n < |nodes|
    decreases n, 1, 0
  {
    [n] + VisitsAll(nodes, n, |nodes[n].children|)
  }

  function VisitsAll(nodes: seq<Node>, n: nat, k: nat): seq<nat>
    requires ChildrenEarlier(nodes) && n < |nodes| && k <= |nodes[n].children|
    decreases n, 0, k
  {
    if k == 0 then [] else VisitsAll(nodes, n, k - 1) + Visits(nodes, nodes[n].children[k - 1])
  }

  /** Nothing above `n` is met below it, and `n` itself once. */
  lemma {:induction false} VisitsBelow(nodes: seq<Node>, n: nat, m: nat)
    requires ChildrenEarlier(nodes) && n < |nodes| && n <= m
    ensures multiset(Visits(nodes, n))[m] == if m == n then 1 else 0
    decreases n, 1, 0
  {
    VisitsAllBelow(nodes, n, |nodes[n].children|, m);
  }

  lemma {:induction false} VisitsAllBelow(nodes: seq<Node>, n: nat, k: nat, m: nat)
    requires ChildrenEarlier(nodes) && n < |nodes| && k <= |nodes[n].children| && n <= m
    ensures multiset(VisitsAll(nodes, n, k))[m] == 0
    decreases n, 0, k
  {
    if k > 0 {
      VisitsAllBelow(nodes, n, k - 1, m);
      VisitsBelow(nodes, nodes[n].children[k - 1], m);
    }
  }

  /** `p` lists `m` once and no other node lists it. */
  ghost predicate OnlyParent(nodes: seq<Node>, p: nat, m: nat)
    requires p < |nodes|
  {
    && Times(nodes[p].children, m) == 1
    && forall q :: 0 <= q < |nodes| && q != p ==> m !in nodes[q].children
  }

  lemma VisitsStep(nodes: seq<Node>, n: nat, k: nat, m: nat)
    requires ChildrenEarlier(nodes) && n < |nodes| && 0 < k <= |nodes[n].children|
    ensures Times(VisitsAll(nodes, n, k), m)
        == Times(VisitsAll(nodes, n, k - 1), m) + Times(Visits(nodes, nodes[n].children[k - 1]), m)
    ensures Times(nodes[n].children[..k], m) == Times(nodes[n].children[..k - 1], m) +
        if nodes[n].children[k - 1] == m then 1 else 0
  {
    hide Times, Visits;
    var children := nodes[n].children;
    TimesConcat(VisitsAll(nodes, n, k - 1), Visits(nodes, children[k - 1]), m);
    assert children[..k] == children[..k - 1] + [children[k - 1]];
    TimesConcat(children[..k - 1], [children[k - 1]], m);
    TimesOne(children[k - 1], m);
  }

  lemma VisitsHead(nodes: seq<Node>, n: nat, m: nat)
    requires ChildrenEarlier(nodes) && n < |nodes|
    ensures Times(Visits(nodes, n), m) == (if n == m then 1 else 0) + Times(VisitsAll(nodes, n, |nodes[n].children|), m)
  {
    hide Times, VisitsAll;
    TimesConcat([n], VisitsAll(nodes, n, |nodes[n].children|), m);
    TimesOne(n, m);
  }

  /** A node is met as often as its only parent. */
  lemma {:induction false} VisitedWithParent(nodes: seq<Node>, n: nat, p: nat, m: nat)
    requires ChildrenEarlier(nodes) && n < |nodes| && p < |nodes| && m < p && OnlyParent(nodes, p, m) && n != m
    ensures Times(Visits(nodes, n), m) == Times(Visits(nodes, n), p)
    decreases n, 1, 0
  {
    hide Times, Visits, VisitsAll, ChildrenEarlier;
    var children := nodes[n].children;
    VisitedAllWithParent(nodes, n, |children|, p, m);
    VisitsHead(nodes, n, m);
    VisitsHead(nodes, n, p);
    assert children[..|children|] == children;
    if n != p { NotIn(children, m); }
  }

  lemma {:induction false} VisitedAllWithParent(nodes: seq<Node>, n: nat, k: nat, p: nat, m: nat)
    requires ChildrenEarlier(nodes) && n < |nodes| && k <= |nodes[n].children|
    requires p < |nodes| && m < p && OnlyParent(nodes, p, m)
    ensures Times(VisitsAll(nodes, n, k), m) == Times(VisitsAll(nodes, n, k), p) + Times(nodes[n].children[..k], m)
    decreases n, 0, k
  {
    hide Times, Visits, OnlyParent;
    if k == 0 {
      NotIn([], m);
      NotIn([], p);
    } else {
      var c := nodes[n].children[k - 1];
      assert c < n;
      hide VisitsAll, ChildrenEarlier;
      VisitedAllWithParent(nodes, n, k - 1, p, m);
      VisitsStep(nodes, n, k, m);
      VisitsStep(nodes, n, k, p);
      if c == m {
        VisitsOnce(nodes, m, m);
        VisitsOnce(nodes, m, p);
      } else {
        VisitedWithParent(nodes, c, p, m);
      }
    }
  }

  lemma VisitsOnce(nodes: seq<Node>, n: nat, m: nat)
    requires ChildrenEarlier(nodes) && n < |nodes| && n <= m
    ensures Times(Visits(nodes, n), m) == if m == n then 1 else 0
  {
    hide Visits;
    VisitsBelow(nodes, n, m);
  }

  lemma NotIn(s: seq<nat>, m: nat)
    requires m !in s
    ensures Times(s, m) == 0
  {
    assert m !in multiset(s);
  }

  /** A reference counted once has one parent. */
  lemma TimesZero(s: seq<nat>, m: nat)
    ensures Times(s, m) == 0 <==> m !in s
  {
    assert m in multiset(s) <==> m in s;
  }

  lemma RefsStep(nodes: seq<Node>, m: nat, n: nat)
    requires 0 < n <= |nodes|
    ensures Times(Refs(nodes[..n]), m) == Times(Refs(nodes[..n - 1]), m) + Times(nodes[n - 1].children, m)
  {
    hide Times, Refs;
    assert nodes[..n] == nodes[..n - 1] + [nodes[n - 1]];
    RefsSnoc(nodes[..n - 1], nodes[n - 1]);
    TimesConcat(Refs(nodes[..n - 1]), nodes[n - 1].children, m);
  }

  lemma {:induction false} ParentOf(nodes: seq<Node>, m: nat, n: nat) returns (p: nat)
    requires n <= |nodes| && Times(Refs(nodes[..n]), m) == 1
    ensures p < n && Times(nodes[p].children, m) == 1 && forall q :: 0 <= q < n && q != p ==> m !in nodes[q].children
    decreases n
  {
    assert n > 0;
    hide Times, Refs;
    RefsStep(nodes, m, n);
    if Times(nodes[n - 1].children, m) == 1 {
      p := n - 1;
      NoRefs(nodes, m, n - 1);
    } else {
      p := ParentOf(nodes, m, n - 1);
      TimesZero(nodes[n - 1].children, m);
    }
  }

  lemma {:induction false} NoRefs(nodes: seq<Node>, m: nat, n: nat)
    requires n <= |nodes| && Times(Refs(nodes[..n]), m) == 0
    ensures forall q :: 0 <= q < n ==> m !in nodes[q].children
    decreases n
  {
    hide Times, Refs;
    if n > 0 {
      RefsStep(nodes, m, n);
      NoRefs(nodes, m, n - 1);
      TimesZero(nodes[n - 1].children, m);
    }
  }

  /** Reading the root meets every node of an accepted document exactly once. */
  lemma {:induction false} EveryNodeOnce(nodes: seq<Node>, m: nat)
    requires ChildrenEarlier(nodes) && OneParentEach(nodes) && m < |nodes|
    ensures Times(Visits(nodes, |nodes| - 1), m) == 1
    decreases |nodes| - m
  {
    var root := |nodes| - 1;
    if m == root {
      VisitsBelow(nodes, root, root);
    } else {
      assert nodes[..|nodes|] == nodes;
      var p := ParentOf(nodes, m, |nodes|);
      assert m in multiset(nodes[p].children);
      assert m in nodes[p].children;
      EveryNodeOnce(nodes, p);
      VisitedWithParent(nodes, root, p, m);
    }
  }

  /** So an accepted document has exactly as many nodes as its tree. */
  lemma {:induction false} VisitsSize(nodes: seq<Node>, n: nat)
    requires ChildrenEarlier(nodes) && n < |nodes|
    ensures |Visits(nodes, n)| == Size(Unfold(nodes, n))
    decreases n, 1, 0
  {
    VisitsAllSize(nodes, n, |nodes[n].children|);
  }

  lemma {:induction false} VisitsAllSize(nodes: seq<Node>, n: nat, k: nat)
    requires ChildrenEarlier(nodes) && n < |nodes| && k <= |nodes[n].children|
    ensures |VisitsAll(nodes, n, k)| == SizeAll(UnfoldAll(nodes, n, k))
    decreases n, 0, k
  {
    if k > 0 {
      VisitsAllSize(nodes, n, k - 1);
      VisitsSize(nodes, nodes[n].children[k - 1]);
      assert UnfoldAll(nodes, n, k)[..k - 1] == UnfoldAll(nodes, n, k - 1);
    }
  }

  function Range(n: nat): multiset<nat> {
    if n == 0 then multiset{} else Range(n - 1) + multiset{n - 1}
  }

  lemma {:induction false} RangeCount(n: nat, m: nat)
    ensures Range(n)[m] == (if m < n then 1 else 0) && |Range(n)| == n
  {
    if n > 0 { RangeCount(n - 1, m); }
  }

  lemma CountedLength(s: seq<nat>, n: nat)
    requires forall m: nat :: Times(s, m) == if m < n then 1 else 0
    ensures |s| == n
  {
    hide Range;
    var met: multiset<nat> := multiset(s);
    forall m: nat ensures met[m] == Range(n)[m] {
      RangeCount(n, m);
      assert Times(s, m) == if m < n then 1 else 0;
    }
    assert met == Range(n);
    RangeCount(n, 0);
  }

  lemma {:induction false} TreeSize(nodes: seq<Node>)
    requires nodes != [] && ChildrenEarlier(nodes) && OneParentEach(nodes)
    ensures Size(Unfold(nodes, |nodes| - 1)) == |nodes|
  {
    hide OneParentEach, Visits, Unfold, Times, Size, ChildrenEarlier;
    var root := |nodes| - 1;
    forall m: nat ensures Times(Visits(nodes, root), m) == if m < |nodes| then 1 else 0 {
      if m < |nodes| { EveryNodeOnce(nodes, m); } else { NotVisited(nodes, root, m); }
    }
    CountedLength(Visits(nodes, root), |nodes|);
    VisitsSize(nodes, root);
  }

  lemma {:induction false} NotVisited(nodes: seq<Node>, n: nat, m: nat)
    requires ChildrenEarlier(nodes) && n < |nodes| && n < m
    ensures Times(Visits(nodes, n), m) == 0
  {
    VisitsBelow(nodes, n, m);
  }

  // ----- acceptance -----

  ghost predicate Accepted(doc: Document) {
    && doc.version == FORMAT_VERSION
    && doc.nodes != [] && doc.root == |doc.nodes| - 1
    && ChildrenEarlier(doc.nodes) && OneParentEach(doc.nodes)
    && Depth(Unfold(doc.nodes, doc.root)) <= MAX_NESTING_DEPTH
  }

  /** The recursive depth check. */
  predicate DepthOk(nodes: seq<Node>, n: nat, depth: nat)
    requires ChildrenEarlier(nodes) && n < |nodes|
    decreases n, 1, 0
  {
    depth <= MAX_NESTING_DEPTH && DepthAllOk(nodes, n, |nodes[n].children|, depth)
  }

  predicate DepthAllOk(nodes: seq<Node>, n: nat, k: nat, depth: nat)
    requires ChildrenEarlier(nodes) && n < |nodes| && k <= |nodes[n].children|
    decreases n, 0, k
  {
    k == 0 || (DepthAllOk(nodes, n, k - 1, depth) && DepthOk(nodes, nodes[n].children[k - 1], depth + 1))
  }

  lemma {:induction false} DepthMeaning(nodes: seq<Node>, n: nat, depth: nat)
    requires ChildrenEarlier(nodes) && n < |nodes|
    ensures DepthOk(nodes, n, depth) <==> depth + Depth(Unfold(nodes, n)) <= MAX_NESTING_DEPTH
    decreases n, 1, 0
  {
    DepthAllMeaning(nodes, n, |nodes[n].children|, depth);
  }

  lemma {:induction false} DepthAllMeaning(nodes: seq<Node>, n: nat, k: nat, depth: nat)
    requires ChildrenEarlier(nodes) && n < |nodes| && k <= |nodes[n].children|
    ensures DepthAllOk(nodes, n, k, depth) <==>
        k == 0 || depth + 1 + DepthAll(UnfoldAll(nodes, n, k)) <= MAX_NESTING_DEPTH
    decreases n, 0, k
  {
    hide DepthOk, Unfold, Depth, DepthAll, ChildrenEarlier;
    if k > 0 {
      var c := nodes[n].children[k - 1];
      ChildBelow(nodes, n, k - 1);
      DepthAllMeaning(nodes, n, k - 1, depth);
      DepthMeaning(nodes, c, depth + 1);
      DepthSnoc(UnfoldAll(nodes, n, k - 1), Unfold(nodes, c));
    }
  }

  lemma {:induction false} RefsPrefix(nodes: seq<Node>, i: nat, m: nat)
    requires i <= |nodes|
    ensures Times(Refs(nodes[..i]), m) <= Times(Refs(nodes), m)
  {
    hide Times, Refs;
    assert nodes == nodes[..i] + nodes[i..];
    RefsAppend(nodes[..i], nodes[i..]);
    TimesConcat(Refs(nodes[..i]), Refs(nodes[i..]), m);
  }

  /** A child listed twice so far has too many parents in the whole document. */
  lemma TwiceListed(nodes: seq<Node>, i: nat, j: nat, m: nat)
    requires i < |nodes| && j <= |nodes[i].children| && m < |nodes|
    requires Times(Refs(nodes[..i]) + nodes[i].children[..j], m) > 1
    ensures !OneParentEach(nodes)
  {
    hide Refs;
    var children := nodes[i].children;
    RefsPrefix(nodes, i + 1, m);
    RefsSnoc(nodes[..i], nodes[i]);
    assert nodes[..i] + [nodes[i]] == nodes[..i + 1];
    assert children == children[..j] + children[j..];
    TimesConcat(Refs(nodes[..i]), children, m);
    TimesConcat(Refs(nodes[..i]), children[..j], m);
    TimesConcat(children[..j], children[j..], m);
    assert Times(Refs(nodes), m) > 1;
  }

  /** Accepts exactly the documents that are one tree within the depth limit. */
  method ValidateDocument(doc: Document) returns (ok: bool)
    ensures ok <==> Accepted(doc)
  {
    hide OneParentEach, Unfold, Depth, Refs, Times, DepthOk;
    var nodes := doc.nodes;
    if doc.version != FORMAT_VERSION { return false; }
    if nodes == [] || doc.root != |nodes| - 1 { return false; }
    var parents := new nat[|nodes|](_ => 0);
    NoneListed(nodes, parents[..]);
    for i := 0 to |nodes|
      invariant fresh(parents)
      invariant Listed(parents[..], Refs(nodes[..i]))
      invariant forall p, q :: 0 <= p < i && 0 <= q < |nodes[p].children| ==> nodes[p].children[q] < p
    {
      var children := nodes[i].children;
      assert Refs(nodes[..i]) + children[..0] == Refs(nodes[..i]);
      for j := 0 to |children|
        invariant fresh(parents)
        invariant Listed(parents[..], Refs(nodes[..i]) + children[..j])
        invariant forall q :: 0 <= q < j ==> children[q] < i
      {
        var child := children[j];
        if child >= i {
          assert nodes[i].children[j] >= i;
          return false;
        }
        ListedMore(parents[..], Refs(nodes[..i]) + children[..j], child);
        ghost var before := parents[..];
        parents[child] := parents[child] + 1;
        assert parents[..] == before[child := before[child] + 1];
        assert Refs(nodes[..i]) + children[..j + 1] == Refs(nodes[..i]) + children[..j] + [child];
        if parents[child] != 1 {
          Overlisted(parents[..], Refs(nodes[..i]) + children[..j + 1], child);
          TwiceListed(nodes, i, j + 1, child);
          return false;
        }
      }
      assert children[..|children|] == children;
      RefsSnoc(nodes[..i], nodes[i]);
      assert nodes[..i] + [nodes[i]] == nodes[..i + 1];
    }
    assert nodes[..|nodes|] == nodes;
    var root := doc.root;
    ParentsMeaning(nodes, parents[..]);
    if parents[root] != 0 || exists c :: 0 <= c < root && parents[c] != 1 { return false; }
    DepthMeaning(nodes, root, 0);
    ok := DepthOk(nodes, root, 0);
  }

  /** `parents` counts how often each node is listed, and none twice. */
  ghost predicate Listed(parents: seq<nat>, refs: seq<nat>) {
    forall c :: 0 <= c < |parents| ==> parents[c] == Times(refs, c) <= 1
  }

  lemma NoneListed(nodes: seq<Node>, parents: seq<nat>)
    requires forall c :: 0 <= c < |parents| ==> parents[c] == 0
    ensures Listed(parents, Refs(nodes[..0]))
  {
  }

  lemma ListedMore(parents: seq<nat>, refs: seq<nat>, child: nat)
    requires Listed(parents, refs) && child < |parents|
    ensures var counted := parents[child := parents[child] + 1];
            && (forall c :: 0 <= c < |parents| ==> counted[c] == Times(refs + [child], c))
            && (counted[child] == 1 ==> Listed(counted, refs + [child]))
  {
    hide Times;
    forall c: nat ensures Times(refs + [child], c) == Times(refs, c) + if c == child then 1 else 0 {
      TimesConcat(refs, [child], c);
      TimesOne(child, c);
    }
  }

  lemma Overlisted(parents: seq<nat>, refs: seq<nat>, child: nat)
    requires child < |parents| && parents[child] != 1 && parents[child] == Times(refs, child) && parents[child] > 0
    ensures Times(refs, child) > 1
  {
  }

  lemma ParentsMeaning(nodes: seq<Node>, parents: seq<nat>)
    requires |parents| == |nodes| > 0 && Listed(parents, Refs(nodes))
    ensures OneParentEach(nodes) <==>
            parents[|nodes| - 1] == 0 && forall c :: 0 <= c < |nodes| - 1 ==> parents[c] == 1
  {
    hide Refs;
    if OneParentEach(nodes) {
      forall c | 0 <= c < |nodes| ensures parents[c] == if c == |nodes| - 1 then 0 else 1 {
        assert multiset(Refs(nodes))[c] == if c == |nodes| - 1 then 0 else 1;
        assert parents[c] == Times(Refs(nodes), c);
      }
    } else {
      var c :| 0 <= c < |nodes| && multiset(Refs(nodes))[c] != if c == |nodes| - 1 then 0 else 1;
      assert parents[c] == Times(Refs(nodes), c);
    }
  }

  // ----- the two directions -----

  /** A tree archives exactly when it respects the depth limit, and reads back as itself. */
  lemma RoundTrip(t: Tree)
    ensures var doc := Document(FORMAT_VERSION, Size(t) - 1, Encode(0, t));
            && (Accepted(doc) <==> Depth(t) <= MAX_NESTING_DEPTH)
            && (Accepted(doc) ==> Decode(doc.nodes, doc.root, 0) == Value(t))
  {
    hide Encode, Unfold, OneParentEach, Depth, Decode, Size;
    EncodedStructure(t);
    DecodeMeaning(Encode(0, t), Size(t) - 1, 0);
  }

  /** Decoding an accepted document never meets an invalid node or the depth
      limit; the document is one tree in which every node is met exactly once. */
  lemma AcceptedIsOneTree(doc: Document)
    requires Accepted(doc)
    ensures Decode(doc.nodes, doc.root, 0) == Value(Unfold(doc.nodes, doc.root))
    ensures Size(Unfold(doc.nodes, doc.root)) == |doc.nodes|
    ensures forall m :: 0 <= m < |doc.nodes| ==> Times(Visits(doc.nodes, doc.root), m) == 1
  {
    hide Unfold, OneParentEach, Depth, Decode, Size, Visits, Times;
    DecodeMeaning(doc.nodes, doc.root, 0);
    TreeSize(doc.nodes);
    forall m | 0 <= m < |doc.nodes| ensures Times(Visits(doc.nodes, doc.root), m) == 1 {
      EveryNodeOnce(doc.nodes, m);
    }
  }

  /** Serialises and validates. */
  method ToDocument(t: Tree) returns (doc: Option<Document>)
    ensures doc.Some? <==> Depth(t) <= MAX_NESTING_DEPTH
    ensures doc.Some? ==> Accepted(doc.value) && Decode(doc.value.nodes, doc.value.root, 0) == Value(t)
  {
    hide Encode, Unfold, OneParentEach, Depth, Decode, Size, Accepted;
    var serializer := new DocumentSerializer();
    var root := serializer.Serialize(t);
    var written := Document(FORMAT_VERSION, root, serializer.nodes);
    assert serializer.nodes == Encode(0, t);
    RoundTrip(t);
    var ok := ValidateDocument(written);
    doc := if ok then Some(written) else None;
  }
}
