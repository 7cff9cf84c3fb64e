/** Union-find with path compression, and the equivalence it computes: the one
    generated by the joined pairs. */
module DisjointSets {

  // ----- parent forests -----

  /** `rank` witnesses that following parents ends. */
  ghost predicate Forest(p: seq<nat>, rank: seq<nat>) {
    && |p| == |rank|
    && (forall i :: 0 <= i < |p| ==> p[i] < |p|)
    && (forall i :: 0 <= i < |p| && p[i] != i ==> rank[p[i]] < rank[i])
  }

  ghost function Root(p: seq<nat>, rank: seq<nat>, i: nat): (r: nat)
    requires Forest(p, rank) && i < |p|
    ensures r < |p| && p[r] == r && rank[r] <= rank[i]
    ensures p[i] != i ==> rank[r] < rank[i]
    decreases rank[i]
  {
    if p[i] == i then i else Root(p, rank, p[i])
  }

  ghost predicate SameRoots(p: seq<nat>, q: seq<nat>, rank: seq<nat>)
    requires Forest(p, rank) && Forest(q, rank)
  {
    |p| == |q| && forall i :: 0 <= i < |p| ==> Root(q, rank, i) == Root(p, rank, i)
  }

  /** Pointing an element straight at its root changes no root. */
  lemma {:induction false} CompressRoot(p: seq<nat>, rank: seq<nat>, c: nat, i: nat)
    requires Forest(p, rank) && c < |p| && i < |p| && p[c] != c
    ensures Forest(p[c := Root(p, rank, c)], rank)
    ensures Root(p[c := Root(p, rank, c)], rank, i) == Root(p, rank, i)
    decreases rank[i]
  {
    var q := p[c := Root(p, rank, c)];
    assert Forest(q, rank);
    if i == c {
      assert q[q[i]] == q[i];
    } else if p[i] != i {
      CompressRoot(p, rank, c, p[i]);
    }
  }

  lemma Compress(p: seq<nat>, rank: seq<nat>, c: nat)
    requires Forest(p, rank) && c < |p| && p[c] != c
    ensures Forest(p[c := Root(p, rank, c)], rank) && SameRoots(p, p[c := Root(p, rank, c)], rank)
  {
    CompressRoot(p, rank, c, c);
    var q := p[c := Root(p, rank, c)];
    forall i | 0 <= i < |p| ensures Root(q, rank, i) == Root(p, rank, i) { CompressRoot(p, rank, c, i); }
  }

  ghost function Raised(p: seq<nat>, rank: seq<nat>, l: nat, r: nat): (raised: seq<nat>)
    requires Forest(p, rank) && l < |p| && r < |p|
    ensures |raised| == |rank|
    ensures forall i :: 0 <= i < |rank| ==> raised[i] == rank[i] + if Root(p, rank, i) == r then rank[l] + 1 else 0
  {
    seq(|rank|, i requires 0 <= i < |rank| => rank[i] + if Root(p, rank, i) == r then rank[l] + 1 else 0)
  }

  /** Hanging root `r` below root `l` moves exactly the tree of `r`. */
  lemma {:induction false} AttachRoot(p: seq<nat>, rank: seq<nat>, l: nat, r: nat, i: nat)
    requires Forest(p, rank) && l < |p| && r < |p| && p[l] == l && p[r] == r && l != r && i < |p|
    ensures Forest(p[r := l], Raised(p, rank, l, r))
    ensures Root(p[r := l], Raised(p, rank, l, r), i) == if Root(p, rank, i) == r then l else Root(p, rank, i)
    decreases rank[i]
  {
    var q, raised := p[r := l], Raised(p, rank, l, r);
    forall k | 0 <= k < |q| && q[k] != k ensures raised[q[k]] < raised[k] {
      if k != r { assert Root(p, rank, p[k]) == Root(p, rank, k); }
    }
    assert Forest(q, raised);
    if i == r {
      assert Root(q, raised, r) == Root(q, raised, l) == l;
    } else if p[i] != i {
      AttachRoot(p, rank, l, r, p[i]);
    }
  }

  // ----- the generated equivalence -----

  predicate Step(edges: set<(nat, nat)>, a: nat, b: nat) {
    (a, b) in edges || (b, a) in edges
  }

  predicate Chain(edges: set<(nat, nat)>, chain: seq<nat>) {
    chain != [] && forall i :: 0 <= i < |chain| - 1 ==> Step(edges, chain[i], chain[i + 1])
  }

  /** The least equivalence that relates every pair of `edges`. */
  ghost predicate Connected(edges: set<(nat, nat)>, a: nat, b: nat) {
    exists chain :: Chain(edges, chain) && chain[0] == a && chain[|chain| - 1] == b
  }

  lemma ConnectedReflexive(edges: set<(nat, nat)>, a: nat)
    ensures Connected(edges, a, a)
  {
    assert Chain(edges, [a]);
  }

  lemma ConnectedEdge(edges: set<(nat, nat)>, a: nat, b: nat)
    requires (a, b) in edges
    ensures Connected(edges, a, b)
  {
    assert Chain(edges, [a, b]);
  }

  lemma ConnectedSymmetric(edges: set<(nat, nat)>, a: nat, b: nat)
    requires Connected(edges, a, b)
    ensures Connected(edges, b, a)
  {
    var chain :| Chain(edges, chain) && chain[0] == a && chain[|chain| - 1] == b;
    var n := |chain|;
    var back := seq(n, i requires 0 <= i < n => chain[n - 1 - i]);
    forall i | 0 <= i < n - 1 ensures Step(edges, back[i], back[i + 1]) {
      assert Step(edges, chain[n - 2 - i], chain[n - 2 - i + 1]);
    }
    assert Chain(edges, back);
  }

  lemma ConnectedTransitive(edges: set<(nat, nat)>, a: nat, b: nat, c: nat)
    requires Connected(edges, a, b) && Connected(edges, b, c)
    ensures Connected(edges, a, c)
  {
    var left :| Chain(edges, left) && left[0] == a && left[|left| - 1] == b;
    var right :| Chain(edges, right) && right[0] == b && right[|right| - 1] == c;
    var chain := left + right[1..];
    forall i | 0 <= i < |chain| - 1 ensures Step(edges, chain[i], chain[i + 1]) {
      if i < |left| - 1 {
        assert Step(edges, left[i], left[i + 1]);
      } else {
        assert Step(edges, right[i - |left| + 1], right[i - |left| + 1 + 1]);
      }
    }
    assert Chain(edges, chain);
  }

  lemma ConnectedGrows(edges: set<(nat, nat)>, more: set<(nat, nat)>, a: nat, b: nat)
    requires edges <= more && Connected(edges, a, b)
    ensures Connected(more, a, b)
  {
    var chain :| Chain(edges, chain) && chain[0] == a && chain[|chain| - 1] == b;
    forall i | 0 <= i < |chain| - 1 ensures Step(more, chain[i], chain[i + 1]) {
      assert Step(edges, chain[i], chain[i + 1]);
    }
    assert Chain(more, chain);
  }

  // ----- forests that stand for the generated equivalence -----

  ghost predicate Agree(p: seq<nat>, rank: seq<nat>, e: (nat, nat))
    requires Forest(p, rank)
  {
    e.0 < |p| && e.1 < |p| && Root(p, rank, e.0) == Root(p, rank, e.1)
  }

  ghost predicate Tracks(p: seq<nat>, rank: seq<nat>, edges: set<(nat, nat)>) {
    && Forest(p, rank)
    && (forall e :: e in edges ==> Agree(p, rank, e))
    && (forall i :: 0 <= i < |p| ==> Connected(edges, i, Root(p, rank, i)))
  }

  lemma {:induction false} ChainRoots(p: seq<nat>, rank: seq<nat>, edges: set<(nat, nat)>, chain: seq<nat>)
    requires Tracks(p, rank, edges) && Chain(edges, chain) && chain[0] < |p|
    ensures chain[|chain| - 1] < |p| && Root(p, rank, chain[|chain| - 1]) == Root(p, rank, chain[0])
    decreases |chain|
  {
    if |chain| > 1 {
      assert Step(edges, chain[0], chain[1]);
      assert Agree(p, rank, (chain[0], chain[1])) || Agree(p, rank, (chain[1], chain[0]));
      var rest := chain[1..];
      forall i | 0 <= i < |rest| - 1 ensures Step(edges, rest[i], rest[i + 1]) {
        assert Step(edges, chain[i + 1], chain[i + 1 + 1]);
      }
      ChainRoots(p, rank, edges, rest);
    }
  }

  /** Two elements share a root exactly when the joined pairs connect them. */
  lemma RootsDecide(p: seq<nat>, rank: seq<nat>, edges: set<(nat, nat)>, a: nat, b: nat)
    requires Tracks(p, rank, edges) && a < |p| && b < |p|
    ensures Connected(edges, a, b) <==> Root(p, rank, a) == Root(p, rank, b)
  {
    if Connected(edges, a, b) {
      var chain :| Chain(edges, chain) && chain[0] == a && chain[|chain| - 1] == b;
      ChainRoots(p, rank, edges, chain);
    }
    if Root(p, rank, a) == Root(p, rank, b) {
      ConnectedSymmetric(edges, b, Root(p, rank, b));
      ConnectedTransitive(edges, a, Root(p, rank, a), b);
    }
  }

  lemma KeepsTracking(p: seq<nat>, q: seq<nat>, rank: seq<nat>, edges: set<(nat, nat)>)
    requires Tracks(p, rank, edges) && Forest(q, rank) && SameRoots(p, q, rank)
    ensures Tracks(q, rank, edges)
  {
    hide Root, Connected;
    forall e | e in edges ensures Agree(q, rank, e) { assert Agree(p, rank, e); }
    forall i | 0 <= i < |q| ensures Connected(edges, i, Root(q, rank, i)) {
      assert Root(q, rank, i) == Root(p, rank, i);
    }
  }

  /** `q` has the roots of `p`, except that `l` has taken over the tree of `r`. */
  ghost predicate Merged(p: seq<nat>, rank: seq<nat>, q: seq<nat>, raised: seq<nat>, l: nat, r: nat)
    requires Forest(p, rank) && Forest(q, raised) && |p| == |q|
  {
    forall i :: 0 <= i < |p| ==> Root(q, raised, i) == if Root(p, rank, i) == r then l else Root(p, rank, i)
  }

  lemma Attach(p: seq<nat>, rank: seq<nat>, l: nat, r: nat)
    requires Forest(p, rank) && l < |p| && r < |p| && p[l] == l && p[r] == r && l != r
    ensures Forest(p[r := l], Raised(p, rank, l, r)) && Merged(p, rank, p[r := l], Raised(p, rank, l, r), l, r)
  {
    hide Root;
    var q, raised := p[r := l], Raised(p, rank, l, r);
    AttachRoot(p, rank, l, r, l);
    forall i | 0 <= i < |p|
      ensures Root(q, raised, i) == if Root(p, rank, i) == r then l else Root(p, rank, i)
    {
      AttachRoot(p, rank, l, r, i);
    }
  }

  lemma MergedTracks(p: seq<nat>, rank: seq<nat>, q: seq<nat>, raised: seq<nat>, edges: set<(nat, nat)>, a: nat, b: nat)
    requires Tracks(p, rank, edges) && a < |p| && b < |p| && Forest(q, raised) && |p| == |q|
    requires Merged(p, rank, q, raised, Root(p, rank, a), Root(p, rank, b))
    ensures Tracks(q, raised, edges + {(a, b)})
  {
    hide Root, Connected, Forest;
    var l, r, more := Root(p, rank, a), Root(p, rank, b), edges + {(a, b)};
    forall e | e in more ensures Agree(q, raised, e) {
      if e in edges { assert Agree(p, rank, e); }
    }
    forall i | 0 <= i < |q| ensures Connected(more, i, Root(q, raised, i)) {
      if Root(p, rank, i) == r {
        Bridge(edges, a, b, l, r, i);
      } else {
        ConnectedGrows(edges, more, i, Root(p, rank, i));
      }
    }
  }

  /** The new pair bridges the two trees. */
  lemma Bridge(edges: set<(nat, nat)>, a: nat, b: nat, l: nat, r: nat, i: nat)
    requires Connected(edges, i, r) && Connected(edges, b, r) && Connected(edges, a, l)
    ensures Connected(edges + {(a, b)}, i, l)
  {
    hide Connected;
    var more := edges + {(a, b)};
    ConnectedSymmetric(edges, b, r);
    ConnectedTransitive(edges, i, r, b);
    ConnectedGrows(edges, more, i, b);
    ConnectedGrows(edges, more, a, l);
    ConnectedEdge(more, a, b);
    ConnectedSymmetric(more, a, b);
    ConnectedTransitive(more, i, b, a);
    ConnectedTransitive(more, i, a, l);
  }

  lemma AlreadyTracks(p: seq<nat>, rank: seq<nat>, edges: set<(nat, nat)>, a: nat, b: nat)
    requires Tracks(p, rank, edges) && a < |p| && b < |p| && Root(p, rank, a) == Root(p, rank, b)
    ensures Tracks(p, rank, edges + {(a, b)})
  {
    hide Root, Connected;
    forall i | 0 <= i < |p| ensures Connected(edges + {(a, b)}, i, Root(p, rank, i)) {
      ConnectedGrows(edges, edges + {(a, b)}, i, Root(p, rank, i));
    }
  }

  lemma FreshTracks(p: seq<nat>, rank: seq<nat>)
    requires |p| == |rank| && forall i :: 0 <= i < |p| ==> p[i] == i
    ensures Tracks(p, rank, {})
  {
    forall i | 0 <= i < |p| ensures Connected({}, i, Root(p, rank, i)) { ConnectedReflexive({}, i); }
  }

  // ----- counting classes -----

  ghost function Class(edges: set<(nat, nat)>, n: nat, a: nat): set<nat> {
    set b: nat | b < n && Connected(edges, a, b)
  }

  ghost function Classes(edges: set<(nat, nat)>, n: nat, of: set<nat>): set<set<nat>> {
    set a | a in of :: Class(edges, n, a)
  }

  function Upto(n: nat): (s: set<nat>)
    ensures forall i :: i in s <==> 0 <= i < n
  {
    if n == 0 then {} else Upto(n - 1) + {n - 1}
  }

  lemma {:induction false} SeparateClasses(edges: set<(nat, nat)>, n: nat, of: set<nat>)
    requires forall a :: a in of ==> a < n
    requires forall a, b :: a in of && b in of && a != b ==> !Connected(edges, a, b)
    ensures |Classes(edges, n, of)| == |of|
  {
    hide Connected;
    if of != {} {
      var a :| a in of;
      var rest := of - {a};
      SeparateClasses(edges, n, rest);
      forall b | b in rest ensures Class(edges, n, b) != Class(edges, n, a) {
        ConnectedReflexive(edges, b);
        assert b in Class(edges, n, b) && b !in Class(edges, n, a);
      }
      assert Class(edges, n, a) !in Classes(edges, n, rest);
      assert Classes(edges, n, of) == Classes(edges, n, rest) + {Class(edges, n, a)};
    }
  }

  lemma SameClass(p: seq<nat>, rank: seq<nat>, edges: set<(nat, nat)>, a: nat, b: nat)
    requires Tracks(p, rank, edges) && a < |p| && b < |p| && Root(p, rank, a) == Root(p, rank, b)
    ensures Class(edges, |p|, a) == Class(edges, |p|, b)
  {
    hide Root, Connected, Tracks;
    forall c: nat | c < |p| ensures Connected(edges, a, c) <==> Connected(edges, b, c) {
      RootsDecide(p, rank, edges, a, c);
      RootsDecide(p, rank, edges, b, c);
    }
  }

  ghost predicate RootsOf(p: seq<nat>, rank: seq<nat>, n: nat, roots: set<nat>)
    requires Forest(p, rank) && n <= |p|
  {
    && (forall i :: 0 <= i < n ==> Root(p, rank, i) in roots)
    && (forall r :: r in roots ==> r < |p| && p[r] == r)
  }

  /** The roots number the classes. */
  lemma RootsCountClasses(p: seq<nat>, rank: seq<nat>, edges: set<(nat, nat)>, roots: set<nat>)
    requires Tracks(p, rank, edges) && RootsOf(p, rank, |p|, roots)
    ensures |roots| == |Classes(edges, |p|, Upto(|p|))|
  {
    hide Connected;
    forall a, b | a in roots && b in roots && a != b ensures !Connected(edges, a, b) {
      RootsDecide(p, rank, edges, a, b);
    }
    SeparateClasses(edges, |p|, roots);
    forall i: nat | i < |p| ensures Class(edges, |p|, i) in Classes(edges, |p|, roots) {
      SameClass(p, rank, edges, i, Root(p, rank, i));
    }
    assert Classes(edges, |p|, Upto(|p|)) == Classes(edges, |p|, roots);
  }

  // ----- the operations -----

  method DisjointSetRoot(parent: array<nat>, index: nat, ghost rank: seq<nat>) returns (root: nat)
    requires Forest(parent[..], rank) && index < parent.Length
    modifies parent
    ensures Forest(parent[..], rank) && Forest(old(parent[..]), rank) && SameRoots(old(parent[..]), parent[..], rank)
    ensures root == Root(old(parent[..]), rank, index) && root == Root(parent[..], rank, index)
    ensures parent[index] == root
  {
    ghost var was := parent[..];
    root := index;
    while parent[root] != root
      invariant root < parent.Length && Root(was, rank, root) == Root(was, rank, index)
      invariant root != index ==> was[index] != index
      decreases rank[root]
    {
      root := parent[root];
    }
    var current: nat := index;
    while parent[current] != current
      invariant current < parent.Length && Forest(parent[..], rank) && SameRoots(was, parent[..], rank)
      invariant Root(parent[..], rank, current) == root
      invariant current != index ==> parent[index] == root
      decreases rank[current]
    {
      var next := parent[current];
      ghost var before := parent[..];
      Compress(before, rank, current);
      parent[current] := root;
      assert parent[..] == before[current := root];
      current := next;
    }
  }

  method UnionRoots(parent: array<nat>, left: nat, right: nat, ghost rank: seq<nat>, ghost edges: set<(nat, nat)>)
      returns (ghost rank': seq<nat>)
    requires Tracks(parent[..], rank, edges) && left < parent.Length && right < parent.Length
    modifies parent
    ensures Tracks(parent[..], rank', edges + {(left, right)})
  {
    hide Root, Connected;
    ghost var p0 := parent[..];
    var leftRoot := DisjointSetRoot(parent, left, rank);
    ghost var p1 := parent[..];
    KeepsTracking(p0, p1, rank, edges);
    var rightRoot := DisjointSetRoot(parent, right, rank);
    ghost var p2 := parent[..];
    KeepsTracking(p1, p2, rank, edges);
    assert Root(p2, rank, left) == leftRoot;
    rank' := rank;
    if leftRoot != rightRoot {
      Attach(p2, rank, leftRoot, rightRoot);
      rank' := Raised(p2, rank, leftRoot, rightRoot);
      parent[rightRoot] := leftRoot;
      assert parent[..] == p2[rightRoot := leftRoot];
      MergedTracks(p2, rank, parent[..], rank', edges, left, right);
    } else {
      AlreadyTracks(p2, rank, edges, left, right);
    }
  }

  /** Collects the roots of all elements and returns how many there are. */
  method CountRoots(parent: array<nat>, ghost rank: seq<nat>, ghost edges: set<(nat, nat)>) returns (count: nat)
    requires Tracks(parent[..], rank, edges)
    modifies parent
    ensures Tracks(parent[..], rank, edges)
    ensures count == |Classes(edges, parent.Length, Upto(parent.Length))|
  {
    hide Root, Connected;
    var roots: set<nat> := {};
    for index := 0 to parent.Length
      invariant Tracks(parent[..], rank, edges) && RootsOf(parent[..], rank, index, roots)
    {
      ghost var before := parent[..];
      var root := DisjointSetRoot(parent, index, rank);
      ghost var after := parent[..];
      KeepsTracking(before, after, rank, edges);
      StillRoots(before, after, rank, index, roots);
      roots := roots + {root};
    }
    RootsCountClasses(parent[..], rank, edges, roots);
    count := |roots|;
  }

  lemma StillRoots(p: seq<nat>, q: seq<nat>, rank: seq<nat>, n: nat, roots: set<nat>)
    requires Forest(p, rank) && Forest(q, rank) && SameRoots(p, q, rank) && n <= |p| && RootsOf(p, rank, n, roots)
    ensures RootsOf(q, rank, n, roots)
  {
    forall r | r in roots ensures r < |q| && q[r] == r { assert Root(q, rank, r) == Root(p, rank, r) == r; }
  }
}
