/** Which nodes an encoding visits, and in which order: the worklist collects
    exactly the cone of the outputs, and sorting it by level is topological. */
module LogicCone {
  import opened Lists
  import opened LogicNetwork

  /** Fanin nodes other than the shared constant. */
  function FaninNodes(row: Row): set<nat> {
    (match row.kind
     case Constant | Input => {}
     case And | Xor => {row.fanin0.node, row.fanin1.node}
     case Mux => {row.fanin0.node, row.fanin1.node, row.fanin2.node}) - {0}
  }

  lemma FaninsBelow(rows: seq<Row>, n: nat, f: nat)
    requires WellFormed(rows) && n < |rows| && f in FaninNodes(rows[n])
    ensures 0 < f < n
  {
    assert GoodRow(rows[n], n);
  }

  lemma FaninsLower(rows: seq<Row>, n: nat, f: nat)
    requires WellFormed(rows) && Levelled(rows) && n < |rows| && f in FaninNodes(rows[n])
    ensures 0 < f < n && rows[f].level < rows[n].level
  {
    FaninsBelow(rows, n, f);
    assert LevelAbove(rows, n);
  }

  /** `n` depends on `m`, or is it; the shared constant belongs to no cone. */
  ghost predicate Reaches(rows: seq<Row>, n: nat, m: nat)
    decreases n
  {
    n != 0 && n < |rows| && (n == m || exists f :: f in FaninNodes(rows[n]) && f < n && Reaches(rows, f, m))
  }

  ghost predicate InCone(rows: seq<Row>, outputs: seq<Lit>, m: nat) {
    exists i :: 0 <= i < |outputs| && Reaches(rows, outputs[i].node, m)
  }

  ghost function Cone(rows: seq<Row>, outputs: seq<Lit>): set<nat> {
    set m | 0 <= m < |rows| && InCone(rows, outputs, m)
  }

  lemma {:induction false} ReachesTransitive(rows: seq<Row>, n: nat, m: nat, k: nat)
    requires Reaches(rows, n, m) && Reaches(rows, m, k)
    ensures Reaches(rows, n, k)
    decreases n
  {
    if n != m {
      var f :| f in FaninNodes(rows[n]) && f < n && Reaches(rows, f, m);
      ReachesTransitive(rows, f, m, k);
    }
  }

  lemma {:induction false} ReachesNodes(rows: seq<Row>, n: nat, m: nat)
    requires Reaches(rows, n, m)
    ensures 0 < m <= n
    decreases n
  {
    if n != m {
      var f :| f in FaninNodes(rows[n]) && f < n && Reaches(rows, f, m);
      ReachesNodes(rows, f, m);
    }
  }

  lemma ReachesFanin(rows: seq<Row>, n: nat, f: nat)
    requires WellFormed(rows) && n != 0 && n < |rows| && f in FaninNodes(rows[n])
    ensures Reaches(rows, n, f)
  {
    FaninsBelow(rows, n, f);
    assert Reaches(rows, f, f);
  }

  /** A set closed under fanins holds everything its members reach. */
  lemma {:induction false} ClosedHolds(rows: seq<Row>, s: set<nat>, n: nat, m: nat)
    requires forall k :: k in s ==> k < |rows| && FaninNodes(rows[k]) <= s
    requires n in s && Reaches(rows, n, m)
    ensures m in s
    decreases n
  {
    if n != m {
      var f :| f in FaninNodes(rows[n]) && f < n && Reaches(rows, f, m);
      ClosedHolds(rows, s, f, m);
    }
  }

  /** Fanin nodes in slot order, as the worklist pushes them. */
  function FaninList(row: Row): (list: seq<nat>)
    ensures forall f :: f in list <==> f in FaninNodes(row)
  {
    var one := (l: Lit) => if l.node == 0 then [] else [l.node];
    match row.kind
    case Constant | Input => []
    case And | Xor => one(row.fanin0) + one(row.fanin1)
    case Mux => one(row.fanin0) + one(row.fanin1) + one(row.fanin2)
  }

  function OutputNodes(outputs: seq<Lit>): (nodes: seq<nat>)
    ensures forall n :: n in nodes <==> n != 0 && exists i :: 0 <= i < |outputs| && outputs[i].node == n
  {
    if outputs == [] then [] else
    var rest := OutputNodes(outputs[1..]);
    assert forall i :: 1 <= i < |outputs| ==> outputs[1..][i - 1] == outputs[i];
    if outputs[0].node == 0 then rest else [outputs[0].node] + rest
  }

  /** What the worklist has established before each pop. */
  ghost predicate Progress(rows: seq<Row>, outputs: seq<Lit>, pending: seq<nat>, visited: seq<bool>, order: seq<nat>) {
    && |visited| == |rows|
    && (forall n :: n in order <==> 0 <= n < |rows| && visited[n])
    && Distinct(order)
    && (forall n :: n in order ==> n in Cone(rows, outputs))
    && (forall p :: p in pending ==> p != 0 && (p in OutputNodes(outputs) || (p < |rows| && p in Cone(rows, outputs))))
    && (forall n, f :: n in order && f in FaninNodes(rows[n]) ==> f in order || f in pending)
    && (forall n :: n in OutputNodes(outputs) ==> n in order || n in pending)
  }

  lemma ProgressPop(rows: seq<Row>, outputs: seq<Lit>, pending: seq<nat>, visited: seq<bool>, order: seq<nat>)
    requires WellFormed(rows) && Progress(rows, outputs, pending, visited, order) && pending != []
    requires var n := pending[|pending| - 1]; n < |rows| && !visited[n]
    ensures var n := pending[|pending| - 1];
            && Progress(rows, outputs, pending[..|pending| - 1] + FaninList(rows[n]), visited[n := true], order + [n])
            && |order| < |rows|
  {
    hide Cone, OutputNodes, FaninNodes;
    var n := pending[|pending| - 1];
    assert n in pending;
    ConePop(rows, outputs, n);
    PendingPop(pending, FaninList(rows[n]));
    var order' := order + [n];
    assert forall k :: k in order' <==> k in order || k == n;
    assert n !in order;
    SetOfDistinct(order);
    SetOfDistinct(order');
    RangeSize(Members(order'), |rows|);
    var pending' := pending[..|pending| - 1] + FaninList(rows[n]);
    var visited' := visited[n := true];
    assert forall k :: k in order' <==> 0 <= k < |rows| && visited'[k];
    forall k, f | k in order' && f in FaninNodes(rows[k]) ensures f in order' || f in pending' {
      if k == n { assert f in FaninList(rows[n]); }
    }
    forall p | p in pending'
      ensures p != 0 && (p in OutputNodes(outputs) || (p < |rows| && p in Cone(rows, outputs)))
    {
      if p in pending[..|pending| - 1] { assert p in pending; } else { assert p in FaninNodes(rows[n]); }
    }
  }

  lemma PendingPop(pending: seq<nat>, fanins: seq<nat>)
    requires pending != []
    ensures var last := |pending| - 1;
            forall p :: p in pending[..last] + fanins <==> p in pending[..last] || p in fanins
    ensures forall p :: p in pending <==> p == pending[|pending| - 1] || p in pending[..|pending| - 1]
  {
    assert pending == pending[..|pending| - 1] + [pending[|pending| - 1]];
  }

  lemma ConePop(rows: seq<Row>, outputs: seq<Lit>, n: nat)
    requires WellFormed(rows) && n < |rows| && (n in OutputNodes(outputs) || n in Cone(rows, outputs))
    ensures n in Cone(rows, outputs)
    ensures forall f :: f in FaninNodes(rows[n]) ==> f != 0 && f < |rows| && f in Cone(rows, outputs)
  {
    if n in OutputNodes(outputs) {
      var i :| 0 <= i < |outputs| && outputs[i].node == n;
      assert Reaches(rows, outputs[i].node, n);
    }
    var i :| 0 <= i < |outputs| && Reaches(rows, outputs[i].node, n);
    ReachesNodes(rows, outputs[i].node, n);
    forall f | f in FaninNodes(rows[n]) ensures f != 0 && f < |rows| && f in Cone(rows, outputs) {
      FaninsBelow(rows, n, f);
      ReachesFanin(rows, n, f);
      ReachesTransitive(rows, outputs[i].node, n, f);
      assert InCone(rows, outputs, f);
    }
  }

  lemma ProgressSkip(rows: seq<Row>, outputs: seq<Lit>, pending: seq<nat>, visited: seq<bool>, order: seq<nat>)
    requires Progress(rows, outputs, pending, visited, order) && pending != []
    requires var n := pending[|pending| - 1]; n < |rows| && visited[n]
    ensures Progress(rows, outputs, pending[..|pending| - 1], visited, order)
  {
    hide Cone, FaninNodes, OutputNodes, Distinct;
    var n, rest := pending[|pending| - 1], pending[..|pending| - 1];
    assert pending == rest + [n];
    assert n in order;
    assert forall p :: p in pending <==> p in rest || p == n;
  }

  lemma ProgressDone(rows: seq<Row>, outputs: seq<Lit>, visited: seq<bool>, order: seq<nat>)
    requires 0 < |rows| && Progress(rows, outputs, [], visited, order)
    ensures forall i :: 0 <= i < |outputs| ==> outputs[i].node < |rows|
    ensures Members(order) == Cone(rows, outputs)
  {
    forall i | 0 <= i < |outputs| ensures outputs[i].node < |rows| {
      if outputs[i].node != 0 { assert outputs[i].node in OutputNodes(outputs); }
    }
    var s := Members(order);
    forall m | m in Cone(rows, outputs) ensures m in s {
      var i :| 0 <= i < |outputs| && Reaches(rows, outputs[i].node, m);
      assert outputs[i].node in OutputNodes(outputs);
      ClosedHolds(rows, s, outputs[i].node, m);
    }
  }

  /** Collects the cone of the outputs with an explicit stack. It fails exactly
      when some output names a node outside the network. */
  method Collect(rows: seq<Row>, outputs: seq<Lit>) returns (result: Option<seq<nat>>)
    requires WellFormed(rows)
    ensures result.Some? <==> forall i :: 0 <= i < |outputs| ==> outputs[i].node < |rows|
    ensures result.Some? ==> Distinct(result.value) && Members(result.value) == Cone(rows, outputs)
  {
    var pending := OutputNodes(outputs);
    var visited := seq(|rows|, _ => false);
    var order: seq<nat> := [];
    while pending != []
      invariant Progress(rows, outputs, pending, visited, order)
      invariant |order| <= |rows|
      decreases |rows| - |order|, |pending|
    {
      var n := pending[|pending| - 1];
      assert n in pending;
      if n >= |rows| {
        return None;
      }
      if visited[n] {
        ProgressSkip(rows, outputs, pending, visited, order);
        pending := pending[..|pending| - 1];
      } else {
        ProgressPop(rows, outputs, pending, visited, order);
        pending := pending[..|pending| - 1] + FaninList(rows[n]);
        visited := visited[n := true];
        order := order + [n];
      }
    }
    ProgressDone(rows, outputs, visited, order);
    result := Some(order);
  }

  // ----- stable sort by level -----

  predicate InNetwork(rows: seq<Row>, order: seq<nat>) {
    forall i :: 0 <= i < |order| ==> order[i] < |rows|
  }

  predicate ByLevel(rows: seq<Row>, order: seq<nat>)
    requires InNetwork(rows, order)
  {
    forall i, j :: 0 <= i < j < |order| ==> rows[order[i]].level <= rows[order[j]].level
  }

  /** Inserts after every node of the same or a lower level. */
  function Insert(rows: seq<Row>, sorted: seq<nat>, n: nat): (r: seq<nat>)
    requires n < |rows| && InNetwork(rows, sorted) && ByLevel(rows, sorted)
    ensures InNetwork(rows, r) && ByLevel(rows, r) && multiset(r) == multiset(sorted) + multiset{n}
  {
    if sorted == [] || rows[sorted[|sorted| - 1]].level <= rows[n].level then sorted + [n]
    else
      var last := |sorted| - 1;
      assert sorted == sorted[..last] + [sorted[last]];
      var r := Insert(rows, sorted[..last], n);
      InsertBound(rows, r, sorted[..last], n, sorted[last]);
      r + [sorted[last]]
  }

  lemma InsertBound(rows: seq<Row>, r: seq<nat>, sorted: seq<nat>, n: nat, last: nat)
    requires InNetwork(rows, r) && InNetwork(rows, sorted) && n < |rows| && last < |rows|
    requires multiset(r) == multiset(sorted) + multiset{n}
    requires rows[n].level <= rows[last].level
    requires forall i :: 0 <= i < |sorted| ==> rows[sorted[i]].level <= rows[last].level
    ensures forall i :: 0 <= i < |r| ==> rows[r[i]].level <= rows[last].level
  {
    forall i | 0 <= i < |r| ensures rows[r[i]].level <= rows[last].level {
      assert r[i] in multiset(r);
    }
  }

  function SortByLevel(rows: seq<Row>, order: seq<nat>): (r: seq<nat>)
    requires InNetwork(rows, order)
    ensures InNetwork(rows, r) && ByLevel(rows, r) && multiset(r) == multiset(order) && |r| == |order|
  {
    if order == [] then [] else
    var last := |order| - 1;
    assert order == order[..last] + [order[last]];
    var r := Insert(rows, SortByLevel(rows, order[..last]), order[last]);
    assert |multiset(r)| == |r| && |multiset(order)| == |order|;
    r
  }

  /** Sorting by level puts every fanin before its gate. */
  lemma SortIsTopological(rows: seq<Row>, outputs: seq<Lit>, order: seq<nat>, k: nat, f: nat)
    requires WellFormed(rows) && Levelled(rows) && InNetwork(rows, order)
    requires Members(order) == Cone(rows, outputs)
    requires k < |order| && f in FaninNodes(rows[SortByLevel(rows, order)[k]])
    ensures exists j :: 0 <= j < k && SortByLevel(rows, order)[j] == f
  {
    hide Cone, FaninNodes, SortByLevel, WellFormed, Levelled;
    var sorted := SortByLevel(rows, order);
    SameMembers(sorted, order);
    var n := sorted[k];
    assert n in sorted && n in Members(order);
    assert n < |rows|;
    ConePop(rows, outputs, n);
    FaninsLower(rows, n, f);
    assert f in Members(order) && f in sorted;
    var j :| 0 <= j < |sorted| && sorted[j] == f;
    assert j < k;
  }

  lemma SortKeeps(rows: seq<Row>, order: seq<nat>)
    requires InNetwork(rows, order) && Distinct(order)
    ensures Distinct(SortByLevel(rows, order)) && |SortByLevel(rows, order)| == |order|
    ensures forall n :: n in SortByLevel(rows, order) <==> n in order
  {
    var sorted := SortByLevel(rows, order);
    SameMembers(sorted, order);
    assert Members(sorted) == Members(order);
    SetOfDistinct(order);
    SetOfDistinct(sorted);
  }

  lemma SameMembers(a: seq<nat>, b: seq<nat>)
    requires multiset(a) == multiset(b)
    ensures forall n :: n in a <==> n in b
  {
    forall n ensures n in a <==> n in b {
      assert n in a <==> n in multiset(a);
      assert n in b <==> n in multiset(b);
    }
  }

  // ----- clauses -----

  /** How many clauses define a node of this kind. */
  function NodeClauses(kind: NodeKind): nat {
    match kind
    case Constant | Input => 0
    case And => 3
    case Xor | Mux => 4
  }

  /** How many clauses define the nodes of `s` below `n`. */
  ghost function ConeClauses(rows: seq<Row>, s: set<nat>, n: nat): nat
    requires n <= |rows|
  {
    if n == 0 then 0 else ConeClauses(rows, s, n - 1) + if n - 1 in s then NodeClauses(rows[n - 1].kind) else 0
  }

  /** How many clauses define the first `k` listed nodes. */
  function ListClauses(rows: seq<Row>, list: seq<nat>, k: nat): nat
    requires k <= |list| && InNetwork(rows, list)
  {
    if k == 0 then 0 else ListClauses(rows, list, k - 1) + NodeClauses(rows[list[k - 1]].kind)
  }

  lemma {:induction false} OneMoreNode(rows: seq<Row>, s: set<nat>, x: nat, n: nat)
    requires n <= |rows| && x !in s
    ensures ConeClauses(rows, s + {x}, n) == ConeClauses(rows, s, n) + if x < n then NodeClauses(rows[x].kind) else 0
  {
    if n > 0 { OneMoreNode(rows, s, x, n - 1); }
  }

  lemma {:induction false} NoNodes(rows: seq<Row>, n: nat)
    requires n <= |rows|
    ensures ConeClauses(rows, {}, n) == 0
  {
    if n > 0 { NoNodes(rows, n - 1); }
  }

  /** A list without repetition defines as many clauses as the set of its members. */
  lemma {:induction false} ListIsSet(rows: seq<Row>, list: seq<nat>, k: nat)
    requires k <= |list| && InNetwork(rows, list) && Distinct(list)
    ensures ListClauses(rows, list, k) == ConeClauses(rows, Members(list[..k]), |rows|)
  {
    if k == 0 {
      assert Members(list[..0]) == {};
      NoNodes(rows, |rows|);
    } else {
      ListIsSet(rows, list, k - 1);
      assert list[..k] == list[..k - 1] + [list[k - 1]];
      assert Members(list[..k]) == Members(list[..k - 1]) + {list[k - 1]};
      OneMoreNode(rows, Members(list[..k - 1]), list[k - 1], |rows|);
    }
  }
}
